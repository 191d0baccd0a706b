# A verified model of EncKV

EncKV is an encrypted key-value store: a client encrypts its records, spreads them over several nodes and
stores encrypted indexes beside them, so that the nodes can answer equality and range queries without any key.
This project models its logic in Dafny and proves what the code promises and, where a promise fails, exactly when.

- **Order-revealing encryption** (`fastore/`): `Bits`, `Memory` and `Crypto` hold words, byte buffers and the Feistel
  permutation with its whole-domain table; `OreSpec` says what the blocks of a message are, `OreBlk` what the buffers
  of a query and of an index hold and what comparing them means; `OreMethods` is the code itself, loops over byte
  arrays; `OreTheorems` draws the consequences; `OreHelper` is the object that client and proxy use.
- **Encrypted indexes** (`Client/`, `Proxy/`): `Prf` has the pseudo-random labels, `IndexSpec` what a history of puts
  leaves in a store, `Proxy` the scans of one node, `IndexTheorems` their agreement with a plain filter, `SimConHash`
  the ring, `Sharing` all nodes together, `ClientSpec`, `PutSteps` and `Client` the client with its counters and
  scratch buffers, `ClientTheorems` what a caller gets, `Example` one world in full, `RunningPut` a scan that
  interleaves with a put, and `RandomOrder` the random server order of the plaintext queries.
- **Shared table** (`Caravel/ConHash.h`): `ConHash` is a state machine in which every access to a byte, a version or
  the semaphore is one step, and the steps of all threads interleave.
- **Blind signature** (`Caravel/RSABlindSign.cpp`): `NumberTheory` proves Euclid's lemma, the binomial theorem and
  Fermat's little theorem from their definitions; `RSABlindSign` has the four operations and their exchange.

AES, SHA-256 and HMAC are arbitrary functions throughout. Three hypotheses about them occur, all named predicates:
`Prf.Apart` (no two of the finitely many labels in use collide), `OreBlk.RowApart` (the two tags of a slot are not zero
and differ) and `ClientSpec.AesOk` (decryption undoes encryption, and no ciphertext is empty). `Example` has a world in
which all of them hold. Where the second fails, `OreTheorems.DecisionIsRight` and `OreTheorems.ZeroTagHides` say what
the comparison answers.

## Model

| member | source | states |
|---|---|---|
| Crypto.PrpKeyExpand | fastore/crypto.cpp:194-206 | the three round keys are read at byte offsets 0, 1 and 2 of the encrypted counters, so they overlap |
| Crypto.RoundKeysAre | fastore/crypto.cpp:194-206 | round key j is the 16 bytes from byte j on of the encryptions of the counters 0 and 1 |
| Crypto.ExtractBlocks | fastore/crypto.cpp:226-238 | the masks and shifts give the low and the high half of the value, for every even width up to 64 |
| Crypto.FeistelRound | fastore/crypto.cpp:122-137 | one round on two words, with the AES output reduced modulo 2^(nbits/2) |
| Crypto.FeistelRoundBatch | fastore/crypto.cpp:154-181 | the batched round, which masks where the single one takes a remainder, is the same round at every position |
| Crypto.PrpEval | fastore/crypto.cpp:255-301 | odd and oversized widths are refused; otherwise the three rounds in the order of the direction compute the permutation's value |
| Crypto.ForwardIs | fastore/crypto.cpp:255-297 | the forward value from the cipher alone: l 2^half + r becomes r2 2^half + r3, with r1 = l xor aes(k0, r), r2 = r xor aes(k1, r1) and r3 = r1 xor aes(k2, r2), each cut to half the width |
| Crypto.PrpEvalAll | fastore/crypto.cpp:317-382 | despite pointer swaps and masks, entry j of the table is the single form's value at j, for both directions; refused widths touch nothing |
| Crypto.NetworkUndo | fastore/crypto.cpp:269-288 | any list of rounds, run backwards between two swaps, undoes itself for arbitrary round functions |
| Crypto.PrpRoundTrip | fastore/crypto.cpp:255-301 | inverse after forward and forward after inverse are the identity for every even width up to 64, every key and every value |
| Crypto.InverseTableIsPermutation | fastore/crypto.cpp:317-374 | the table of the inverse holds x at position prp_eval(x), repeats nothing and stays inside the domain |
| OreSpec.CeilIsDiv | fastore/ore_blk.cpp:32 | counting records is the rounded-up quotient of the macro |
| OreSpec.MaskIs | fastore/ore_blk.cpp:813-833 | the 64-bit mask of round i covers the block's position, cut short where the first shift pushed bits out of the word |
| OreSpec.BlockIs | fastore/ore_blk.cpp:829-833 | a block is the message's slice above its shift, as wide as the mask, for all parameters |
| OreSpec.PrefixIs | fastore/ore_blk.cpp:828-913 | prefix is always the message bits above the current block |
| OreSpec.BlocksRecombine | fastore/ore_blk.cpp:829-913 | the blocks put together are the message modulo 2^(block_len * nblocks) |
| OreSpec.DifferenceDecides | fastore/ore_blk.cpp:829-913 | below equal prefixes the first differing block orders the numbers |
| OreSpec.VerdictIsAnswer | fastore/ore_blk.cpp:1059-1099 | lexicographic order of the blocks is the numeric order of the low bits, for both aims |
| OreBlk.BlockResidue | fastore/ore_blk.cpp:1071-1077 | under equal prefixes hash and slot cancel to 0 for equal blocks and otherwise to the tag of the difference |
| OreBlk.CompareBlockIs | fastore/ore_blk.cpp:1061-1094 | one block of the comparison, with no hypothesis on the tags: it goes on for equal blocks or a zero tag, else two tags of one slot settle it |
| OreBlk.HonestReadable | fastore/ore_blk.cpp:1062-1076 | comparing an honest query never reads outside an index of the same parameters |
| OreBlk.CompareWalksBlocks | fastore/ore_blk.cpp:1029-1100 | for all parameters, comparing honest buffers walks the plain blocks and stops at the first difference |
| OreBlk.CompareCorrect | fastore/ore_blk.cpp:1029-1100 | for all messages, keys, nonces, names, rows and aims the comparison gives 0, 1 or -1 as the low bits are equal, ordered as aimed, or not |
| OreMethods.OreQuery.Init | fastore/ore_blk.cpp:947-965 | refuses invalid parameters and leaves the object alone; else a buffer of the query length |
| OreMethods.OreIndex.Init | fastore/ore_blk.cpp:985-1009 | the same for an index |
| OreMethods.WriteLeft | fastore/ore_blk.cpp:855-857 | key, tag and slot number read back from the bytes written, and no other byte changes |
| OreMethods.QueryBlock | fastore/ore_blk.cpp:835-858 | the query branch of a round writes the left block of (message, aim), or fails for an odd width and writes nothing |
| OreMethods.EvalKeyedHashBatch | fastore/ore_blk.cpp:198-217 | the cipher runs over all blocks first and the mask over all its words after that; together they give the single keyed hash under every key |
| OreMethods.TagSlot | fastore/ore_blk.cpp:890-900 | a slot's hash is tagged with its flag unless the slot's value is the block itself |
| OreMethods.StoreSlots | fastore/ore_blk.cpp:888-902 | after the loop every slot reads back its tagged hash, for every cmp_len, and no byte outside the block changes |
| OreMethods.IndexBlock | fastore/ore_blk.cpp:862-909 | the index branch of a round writes all slots of the block, or fails for an odd width and writes nothing |
| OreMethods.SetupHelper | fastore/ore_blk.cpp:762-920 | the exact error for every combination of objects, key and parameters; else the buffer holds the query or the index, and bytes behind it are kept; an error leaves the buffer as it was, but for an odd width, where an index has its new nonce |
| OreMethods.SetupQuery | fastore/ore_blk.cpp:829-917 | the loop over the blocks of a query makes the buffer a query for (message, aim) |
| OreMethods.SetupIndex | fastore/ore_blk.cpp:816-917 | nonce and loop make the buffer an index for (message, row) |
| OreMethods.NextRound | fastore/ore_blk.cpp:911-913 | updating prefix and mask leads to those of the next round |
| OreMethods.OreCompare | fastore/ore_blk.cpp:1029-1100 | the exact errors; else the comparison of the two buffers, which needs no key |
| OreMethods.CompareOneBlock | fastore/ore_blk.cpp:1061-1094 | one round on offsets and copied bytes says what the block of the two buffers says |
| OreMethods.WalkBlocks | fastore/ore_blk.cpp:1047-1099 | the loop over the blocks answers as the first block that decides |
| OreMethods.OreCompareUi | fastore/ore_blk.cpp:1132-1178 | walks the common number of words; with refused parameters only an empty walk succeeds |
| OreMethods.OreQueryUi | fastore/ore_blk.cpp:1102-1115 | the exact error, refused parameters before a missing key; else a new buffer that holds the query |
| OreMethods.OreIndexUi | fastore/ore_blk.cpp:1117-1130 | the same for an index |
| OreTheorems.SlotCensus | fastore/ore_blk.cpp:873-902 | in every block one slot is tagged EQUAL, as many SMALL as the block's value, and the rest LARGE, whatever the keys |
| OreTheorems.QueryBytes | fastore/ore_blk.cpp:835-858 | byte for byte, each block of a query: the cipher inputs of key and tag as numbers, the slot number, and where they stand |
| OreTheorems.IndexBytes | fastore/ore_blk.cpp:862-909 | byte for byte, each slot of an index: nonce, cipher inputs of hash and tag as numbers, which values get which flag, and where the slot stands |
| OreTheorems.LeftLayout | fastore/ore_blk.cpp:932-936 | left blocks do not overlap and end within the length function |
| OreTheorems.RightLayout | fastore/ore_blk.cpp:938-945 | neither do the slots, behind the nonce |
| OreTheorems.BufferLengths | fastore/ore_blk.cpp:932-945 | both length functions as the products they compute |
| OreTheorems.CompareStopsAt | fastore/ore_blk.cpp:1059-1099 | where two numbers first differ, a nonzero tag ends the whole comparison with the verdict of that one slot |
| OreTheorems.DecisionIsRight | fastore/ore_blk.cpp:1079-1094 | with a nonzero tag at the deciding slot the comparison is right if and only if the aim is the difference or its tag is another one |
| OreTheorems.ZeroTagHides | fastore/ore_blk.cpp:1077-1098 | with a zero tag at the deciding slot the difference is passed over: the answer is that of the blocks below, and at the last block different numbers compare as equal |
| OreTheorems.OneBitTagsNeverApart | fastore/ore_blk.cpp:886-899 | for cmp_len up to 1 the two tags of a slot are never usable together, so the hypothesis of the main theorem cannot hold |
| OreTheorems.WideTagsCanBeApart | fastore/ore_blk.cpp:886-899 | for every cmp_len from 2 on there is a cipher under which they are, in every row and for both aims |
| OreTheorems.ShortTagsMistake | fastore/ore_blk.cpp:886-899 | for cmp_len up to 1, under every cipher and in every row, the comparison is wrong about 1 and 0 or about 1 and 2 |
| OreTheorems.SomeCipherIsRightIff | fastore/ore_blk.cpp:682-693 | some cipher makes every comparison of a row right if and only if cmp_len is at least 2, for every way of making honest buffers |
| OreTheorems.ZeroCmpLenAlwaysEqual | fastore/ore_blk.cpp:682-693 | cmp_len 0 is accepted, and then every comparison answers "equal" |
| OreTheorems.SeparatesIffFits | fastore/ore_blk.cpp:813-833 | the comparison tells every two nbits-bit words apart if and only if block_len * nblocks is at most 64, for all accepted sizes |
| OreTheorems.LostBitComparesEqual | fastore/ore_blk.cpp:813-833 | when the blocks do not fit, the word with only the lost bit set compares as equal to 0 |
| OreTheorems.TruncationExample | fastore/ore_blk.cpp:813-833 | with nbits 64 and block_len 12, 2^52 and 0 compare as equal |
| OreTheorems.CompareWordsCorrect | fastore/ore_blk.cpp:1132-1178 | over several words under one row the answer is lexicographic order, and 0 if and only if all common words agree |
| OreTheorems.CommonWordsAre | fastore/ore_blk.cpp:1138-1143 | the common number of words is the smaller of the two quotients of the lengths |
| OreTheorems.MadeWordsAreHonest | fastore/ore_blk.cpp:1132-1178 | queries and indexes as the setup makes them, laid end to end in any two numbers, meet what the theorem on several words assumes |
| OreHelper.CStringIs | fastore/ore_blk.cpp:824 | a column name enters the hash up to its first zero byte |
| OreHelper.HelperUsable | fastore/OREHelper.cpp:22-28 | every block size from 1 to 16 gives parameters in which the 32-bit values fit whole |
| OreHelper.OREHelper.Init | fastore/OREHelper.cpp:22-28 | what the object holds afterwards: 32-bit values, the block size and 64-bit comparison words; a refused block size leaves the key unset |
| OreHelper.OREHelper.CreateLeft | fastore/OREHelper.cpp:36-50 | the caller's buffer starts with the query for (value, aim), and the bytes behind it are kept; for an odd block size it starts with what the helper's own buffer held, whatever the value |
| OreHelper.OREHelper.CreateRight | fastore/OREHelper.cpp:59-71 | the index for (value, counter) stands at the caller's offset, and all other bytes are kept; for an odd block size a new nonce stands there and what the helper's own buffer held behind it |
| OreHelper.OREHelper.CompareORE | fastore/OREHelper.cpp:78-93 | the comparison of the two parts passed in, as an unsigned word, without any key |
| OreHelper.CompareAsWord | fastore/OREHelper.cpp:76-93 | whatever the buffers hold, the word is 0, 1 or, for -1, the largest one |
| OreHelper.HelperCompares | fastore/OREHelper.cpp:43-92 | on the helper's parameters 1 means smaller than the bound for a positive iCmp and larger otherwise, and 0 means equal, for all 32-bit values |
| OreHelper.ClientBuffersFit | fastore/OREHelper.h:26-29 | of all accepted block sizes, the client's query buffer of 1088 bytes fits exactly those from 2 on, its index buffer of 32800 bytes exactly those up to 10 |
| SimConHash.Ring.InsertNode | Client/SimConHash.h:63-68 | appends the node and its threshold |
| SimConHash.Ring.Query | Client/SimConHash.h:26-51 | nothing for an empty ring, else the node that owns the key and its position |
| SimConHash.BuildRing | Client/ClientCpp.cpp:613-627 | the ring holds the servers in order, with evenly spaced thresholds |
| SimConHash.ThresholdExact | Client/ClientCpp.cpp:616-624 | no threshold wraps round in 32 bits, for 1 to 100 nodes |
| SimConHash.ThresholdsIncrease | Client/ClientCpp.cpp:616-624 | the thresholds strictly increase |
| SimConHash.OwnerUnique | Client/SimConHash.h:33-50 | every key has one owner |
| SimConHash.OwnerIsQuotient | Client/SimConHash.h:33-50 | node min(key / interval, n - 1) owns the key, and no other, for every 32-bit key |
| SimConHash.RingShares | Client/ClientCpp.cpp:616-624 | the ring in numbers: each node but the last owns exactly w consecutive keys, where n (w + 5) <= 2^32 - 1 < n (w + 6), and the last owns the rest, at most w + 6 n |
| Prf.XorInMemory | Client/ClientCpp.cpp:151-159 | exclusive or of two words in memory is exclusive or of their bytes |
| Prf.XorBytesCancel | Proxy/TProxy.cpp:145-150 | masking twice gives the bytes back |
| IndexSpec.GetIsLookup | Proxy/TProxy.cpp:59-97 | as long as labels do not collide, the store answers by label what the log of writes says by name |
| IndexSpec.RunningShows | Client/ClientCpp.cpp:126-280 | in the middle of a put each index shows it from its own write on, and the data from its own |
| IndexSpec.LogShows | Client/ClientCpp.cpp:98-282 | after any history every chain of every family is dense and every key holds its last ciphertext |
| IndexSpec.StepsInOrder | Client/ClientCpp.cpp:126-280 | a put writes column, linear equality, fast equality, order and data in this order, each at most once |
| Proxy.FlagTestMeaning | Proxy/TProxy.cpp:137 | the flag test as C++ parses it turns an entry away if and only if the mask word is the truth value of the comparison |
| Proxy.FlagTestAgreesIff | Proxy/TProxy.cpp:137 | the parsed test agrees with the comparison of the flag and the unmasked word if and only if the entry carries the flag or its mask word is the truth value of word == flag |
| Proxy.FlagTestExample | Proxy/TProxy.cpp:137 | word 0 under mask 5 carries no flag and passes |
| Proxy.HonestEntryPasses | Proxy/TProxy.cpp:137 | every honestly hidden entry passes it, for every mask and trapdoor |
| Proxy.UnmaskRecovers | Proxy/TProxy.cpp:139-152 | unmasking gives back the hidden trapdoor |
| Proxy.ProxyNode.ProxyPut | Proxy/TProxy.cpp:82-97 | the second pair is stored exactly when its key is not empty |
| Proxy.ProxyNode.EqualSearch | Proxy/TProxy.cpp:185-228 | the endless loop ends after n + 1 lookups with the answer of the scan of the n labels present |
| Proxy.ProxyNode.OrderSearch | Proxy/TProxy.cpp:290-333 | the same for the order index, with a helper that holds no key of the client |
| Proxy.ProxyNode.UnmaskInPlace | Proxy/TProxy.cpp:139-152 | the in-place loop over the scratch buffer unmasks the 32 bytes behind the flag |
| Proxy.ProxyNode.ProxyGetColumn | Proxy/TProxy.cpp:107-174 | looks at the first GetNum labels, skips missing ones and stops at the first failed flag test |
| IndexTheorems.ChainsAreDense | Client/ClientCpp.cpp:126-282 | after any history labels 0 .. n-1 of a chain are present and those from n on absent, n being the number counted, for every family and token |
| IndexTheorems.StoredData | Client/ClientCpp.cpp:280 | a data label holds the last ciphertext of its key, or nothing |
| IndexTheorems.NumOf | Client/ClientCpp.cpp:269 | the four little-endian bytes of a 32-bit number stand for that number, whatever follows them |
| IndexTheorems.ColumnStored | Client/ClientCpp.cpp:126-165 | label and entry of the column index in plain keyed hashes: keys 3 and 4, the counter's four bytes, the flag and the data's label |
| IndexTheorems.Equal1Stored | Client/ClientCpp.cpp:168-205 | the same for the linear equality index, keys 6 and 7 |
| IndexTheorems.Equal2Stored | Client/ClientCpp.cpp:208-245 | the same for the fast one, keys 8 and 9 |
| IndexTheorems.OrderStored | Client/ClientCpp.cpp:247-275 | the same for the order index, key 10: the data's label, then an index of the value's number for the row that is the counter |
| IndexTheorems.DataStored | Client/ClientCpp.cpp:280 | under the keyed hash with key 1 of table, key and column stands the ciphertext of the last put |
| IndexTheorems.ChainOfTwo | Client/ClientCpp.cpp:126-282 | a chain keeps the order of the puts: the chain of two histories is the one behind the other |
| IndexTheorems.ChainTest | Proxy/TProxy.cpp:210-226 | entry c of a query's chain is fetched if and only if its put matches, because the scan counts as the client counted |
| IndexTheorems.Value1Means | Client/ClientCpp.cpp:347-366 | the linear search looks for puts of the column with exactly the value |
| IndexTheorems.Value2Means | Client/ClientCpp.cpp:367-385 | the fast one for puts whose table, column and value run together to the same bytes |
| IndexTheorems.RangeMeans | Client/ClientCpp.cpp:413-434 | a range query for puts whose number is below the bound when iCmp is positive, and above it otherwise |
| IndexTheorems.ScanRefinesFilter | Proxy/TProxy.cpp:198-226 | on every reachable store each scan ends and returns exactly the stored data of the matching puts, in put order, for both equality indexes and the order index |
| IndexTheorems.ColumnScanIsPrefix | Proxy/TProxy.cpp:107-174 | a column scan returns the data of the first n puts of the column |
| IndexTheorems.FastFindsMore | Client/ClientCpp.cpp:208-245 | the fast index never finds less than the linear one, and finds more exactly at an ambiguous put |
| IndexTheorems.EqualIndexesAgreeIff | Proxy/TProxy.cpp:185-281 | on a node both equality scans give the same sequence if and only if no put of it runs together with the query to the same name from another column |
| IndexTheorems.AmbiguousExample | Client/ClientCpp.cpp:212-217 | such a put |
| IndexTheorems.HitsOfDistinct | Client/ClientCpp.cpp:98-282 | with distinct keys the answer is the matching records |
| IndexTheorems.HitsOfTwo | Client/ClientCpp.cpp:98-282 | answers keep the order of the puts |
| Sharing.LatestOfShare | Client/ClientCpp.cpp:115-119 | all puts of a key go to one node, which holds the latest; the others hold none |
| Sharing.AllNodesRefineFilter | Client/ClientCpp.cpp:387-446 | over all nodes a query returns each matching put's stored data exactly once, in whatever order the nodes are asked |
| Sharing.AllNodesGiveColumn | Client/ClientCpp.cpp:572-581 | when the limit covers the column on every node, all nodes together return the data of the whole column, each put once |
| Sharing.ColumnCount | Client/ClientCpp.cpp:572-581 | with a limit a node, n nodes give at most n times as many entries, and exactly so many when every node holds them |
| Sharing.GatherInOrder | Client/ClientCpp.cpp:391-446 | the answers of the nodes stand one behind the other, for a range query and a column the last node's first |
| ClientSpec.CountsAfter | Client/ClientCpp.cpp:138-259 | every counter stays equal to the length of its chain |
| ClientSpec.FitsAfter | Client/ClientCpp.cpp:98-282 | one put takes a node and its counters from one history to the next |
| PutSteps.MaskInPlace | Client/ClientCpp.cpp:144-161 | the two exclusive ors in the scratch buffer make the column entry that the proxy unmasks |
| PutSteps.PutColumn | Client/ClientCpp.cpp:126-165 | the column branch writes the entry of the next number of its chain and takes that number |
| PutSteps.PutEqual1 | Client/ClientCpp.cpp:168-205 | so does the linear equality branch |
| PutSteps.PutEqual2 | Client/ClientCpp.cpp:208-245 | so does the fast equality branch, whose counter is kept by trapdoor |
| PutSteps.PutOrder | Client/ClientCpp.cpp:247-275 | so does the order branch, and the right part is made for the number it is stored under |
| PutSteps.PutOnNode | Client/ClientCpp.cpp:117-280 | all selected entries and then the data, in this order, on the one node |
| Client.SearchAll | Client/ClientCpp.cpp:391-407 | appends the answers of the servers in order |
| Client.RangeAll | Client/ClientCpp.cpp:436-444 | puts every further answer in front |
| Client.ClientCpp.constructor | Client/ClientCpp.cpp:613-627 | a new client over 1 to 100 servers meets every invariant |
| Client.ClientCpp.Put | Client/ClientCpp.cpp:98-282 | appends the put to the history, and every node and counter still agrees with its share of it |
| Client.ClientCpp.Search | Client/ClientCpp.cpp:337-411 | the answers are exactly the stored data of the matching puts of the whole history, with distinct keys the matching records, and the result is their number |
| Client.ClientCpp.RangeQuery | Client/ClientCpp.cpp:413-447 | the same for the records whose number is below the bound when iCmp is positive, and above it otherwise |
| Client.ClientCpp.GetCol | Client/ClientCpp.cpp:551-591 | there is a limit L with L servers <= uiNum < (L + 1) servers; every node gives its first L entries, last node first and decrypted, so never more than uiNum together, and L servers when every node holds L; when no node holds more, exactly the data of the whole column, and with distinct keys its values |
| Client.ClientCpp.Get | Client/ClientCpp.cpp:66-96 | the latest value on the node that is asked, or nothing when it has none |
| ClientTheorems.GetAfterPut | Client/ClientCpp.cpp:66-119 | after any history that ends with a put of a key, the node that Get asks holds its value if and only if the first word and the exclusive or of the trapdoor's words have the same owner |
| ClientTheorems.PutThenGet | Client/ClientCpp.cpp:66-282 | Put and then Get on one client, whatever came before: the value comes back if and only if both routes meet, and otherwise nothing does |
| ClientTheorems.GetKeyIs | Client/ClientCpp.cpp:79 | Get routes by the first four bytes of the trapdoor |
| ClientTheorems.PutKeyIs | Client/ClientCpp.cpp:115 | Put routes by four bytes, each the exclusive or of every fourth byte of the trapdoor but those of 12 to 15 |
| ClientTheorems.RoutesPart | Client/ClientCpp.cpp:79-115 | trapdoors for which two nodes route apart |
| ClientTheorems.OneNodeMeets | Client/ClientCpp.cpp:79-115 | with one node the routes always meet |
| ClientTheorems.CountersCoverIff | Client/ClientCpp.cpp:613-627 | every key of a ring belongs to a node with counter maps if and only if the ring has at most nine nodes |
| ClientTheorems.ColumnValues | Client/ClientCpp.cpp:551-591 | with distinct keys a node's part of GetCol is the values of its first puts of the column, in put order |
| ClientTheorems.SearchesAgreeIff | Client/ClientCpp.cpp:391-407 | over all nodes both equality searches give the same list if and only if no put of the whole history is ambiguous with the query |
| ClientTheorems.Session | Client/ClientCpp.cpp:98-447 | from two empty nodes: connect, put a value that starts with the four bytes of any 32-bit v; then the search finds it, and the range query finds it if and only if v < bound for a positive iCmp and v > bound otherwise |
| Example.LabelsApart | Client/ClientCpp.cpp:101-263 | a keyed hash and names for which no two labels in use collide |
| Example.PutIsLost | Client/ClientCpp.cpp:66-282 | a client over two nodes, with every hypothesis met: Put, and Get finds nothing |
| Example.PutIsSearchable | Client/ClientCpp.cpp:98-447 | the same put is found by its value and by range |
| RunningPut.RunKeeps | Proxy/TProxy.cpp:198-226 | the invariant of writer and scan holds in every state of every interleaving |
| RunningPut.SearchUnderPut | Proxy/TProxy.cpp:198-226 | every item is stored data of a matching put, in put order and none dangling; a finished scan has found every matching put that was complete when it began |
| RunningPut.ItemIsOwnData | Proxy/TProxy.cpp:210-222 | with distinct keys an item is the very ciphertext of its put |
| ConHash.NextKeeps | Caravel/ConHash.h:72-121 | every step of every thread keeps the invariant of slots, threads, semaphore and returned calls |
| ConHash.NoTornReads | Caravel/ConHash.h:72-93 | in every interleaving a SafeGet that returned true holds exactly the bytes of the slot's one write; one that returned false began its emptiness check before that write was finished; the first protocol leaves the buffer empty or with those bytes; a SafeSet fails only on a written slot |
| ConHash.FalseGetSawZeros | Caravel/ConHash.h:77-92 | in every interleaving a SafeGet that returned false read each of the size bytes as 0, each in some state of its own call |
| ConHash.SingleWinner | Caravel/ConHash.h:101-121 | semaphore value plus writers inside is 1, a slot is won at most once, and its version is 0, 1 or 2 |
| ConHash.VersionsOnlyRise | Caravel/ConHash.h:114-116 | versions never fall, and a written slot never changes |
| ConHash.RunShaped | Caravel/ConHash.h:56-121 | every state of a run is in the shape that a step asks for, so asking restricts no run |
| ConHash.WrittenReadEnds | Caravel/ConHash.h:77-92 | a read of a written slot returns true with the slot's data, whatever the others do: a SafeGet within 2 size + 2 of its own steps from its start, within 3 size + 3 from past its comparison whichever version it saw, within 4 size + 3 from a comparison with a nonzero byte to come; a version test within size + 2 |
| ConHash.UnderwayEnds | Caravel/ConHash.h:77-92 | the general form: every read under way ends within the steps of its own that it has left |
| ConHash.GetAlone | Caravel/ConHash.h:72-93 | undisturbed, a SafeGet returns false for an empty slot and leaves the buffer alone, else true with the bytes |
| ConHash.TestAlone | Caravel/ConHash.h:56-63 | undisturbed, the first protocol hands out the bytes, and its test passes exactly on an even version |
| ConHash.SetAlone | Caravel/ConHash.h:101-121 | undisturbed, a SafeSet wins if and only if the slot is zero, and what it leaves behind |
| ConHash.SecondSetWinsIffZero | Caravel/ConHash.h:107-120 | a second SafeSet wins if and only if the first one wrote all zeros |
| ConHash.ZeroDataReadsEmpty | Caravel/ConHash.h:80-84 | after a SafeSet of all zeros, which reports success, an undisturbed SafeGet returns false |
| RSABlindSign.NumeralBack | Caravel/RSABlindSign.cpp:78-82 | writing a number as a numeral and reading it gives it back, in every base from 2 to 16 |
| RSABlindSign.HexIsBigEndian | Caravel/RSABlindSign.cpp:52-55 | the hexadecimal string stands for the number its bytes spell |
| RSABlindSign.DigitIs | Caravel/RSABlindSign.cpp:78-82 | the digits are the characters 0 to 9 and a to f |
| RSABlindSign.HashesAre | Caravel/RSABlindSign.cpp:44-50 | the eightfold hash is that of the message behind '0' to '7', in this order |
| RSABlindSign.RSABlindSign.BlindHash | Caravel/RSABlindSign.cpp:38-86 | keeps r and the eightfold hash modulo n, and returns h times r to the e |
| RSABlindSign.RSABlindSign.SigGen | Caravel/RSABlindSign.cpp:89-106 | returns the message to the d, through decimal strings |
| RSABlindSign.RSABlindSign.RemoveBlinding | Caravel/RSABlindSign.cpp:109-131 | returns the message times what the inversion left |
| RSABlindSign.RSABlindSign.CheckSign | Caravel/RSABlindSign.cpp:134-157 | true if and only if the signature to the e is the hash |
| RSABlindSign.ExponentsCancel | Caravel/RSABlindSign.cpp:95-140 | raising to e and to d changes nothing modulo n, proved from n = p q |
| RSABlindSign.AcceptsOneResidue | Caravel/RSABlindSign.cpp:134-157 | the check accepts exactly one residue, h to the d |
| RSABlindSign.AcceptedIff | Caravel/RSABlindSign.cpp:109-157 | whatever r was and whatever the inversion left, the check accepts if and only if h r i is h modulo n |
| RSABlindSign.BlindSignatureCorrect | Caravel/RSABlindSign.cpp:38-157 | with an inverse of r every hash is accepted |
| RSABlindSign.InverseIff | Caravel/RSABlindSign.cpp:116 | r has an inverse if and only if it shares no factor with n |
| RSABlindSign.SucceedsIffCoprime | Caravel/RSABlindSign.cpp:38-157 | for a hash prime to n the exchange succeeds if and only if r is prime to n |
| RSABlindSign.ZeroRandomFails | Caravel/RSABlindSign.cpp:61-116 | with r = 0 the check accepts if and only if the hash is 0, whatever the inversion left |
| RSABlindSign.Exchange | Caravel/RSABlindSign.cpp:38-157 | the four calls on a client and a server object that hold the two halves of a key pair |
| RandomOrder.ChooseOne | Client/ClientCpp.cpp:466-478 | the inner loop ends at a server not chosen before, for draws that keep bringing up every server |
| RandomOrder.ServerOrder | Client/ClientCpp.cpp:461-479 | for such draws every server stands in the order exactly once if and only if there are at most 16; with more, the 16 entries fill up and the loop goes on past them |

## Findings

Properties that the code does not have for all inputs. Each has an input, or the exact condition, or both.

| property | source | where it fails, and exactly when it holds |
|---|---|---|
| different words compare as different | fastore/ore_blk.cpp:813-833 | the mask is shifted out of its word when block_len * nblocks exceeds 64, which the validity check allows; `SeparatesIffFits` is the condition, `TruncationExample` has 2^52 and 0 |
| an accepted cmp_len gives a working comparison | fastore/ore_blk.cpp:682-693 | `SomeCipherIsRightIff`: from cmp_len 2 on and not below; cmp_len 0 makes everything equal (`ZeroCmpLenAlwaysEqual`), and up to cmp_len 1 the comparison is wrong about 1 and 0 or about 1 and 2 (`ShortTagsMistake`) |
| the comparison is right | fastore/ore_blk.cpp:1079-1094 | two tags of one slot may collide, or one may be zero; `DecisionIsRight` is the condition at the deciding slot, and `ZeroTagHides` what happens at a zero tag |
| Get returns what Put stored | Client/ClientCpp.cpp:79-115 | Get routes by the first word of the trapdoor, Put by the exclusive or of seven words (the word at byte 12 is left out); `PutThenGet` is the condition, `PutIsLost` a client and a put that Get does not find |
| both equality indexes answer alike | Client/ClientCpp.cpp:208-245 | the fast one names a value by column and value run together; `EqualIndexesAgreeIff` is the condition on a node, `SearchesAgreeIff` over all nodes, `AmbiguousExample` an input |
| the flag test compares the flag with the unmasked word | Proxy/TProxy.cpp:137 | == binds tighter than ^; `FlagTestAgreesIff` is the condition, word 0 under mask 5 an input (`FlagTestExample`); honest entries pass all the same (`HonestEntryPasses`) |
| every accepted block size works on the client | fastore/OREHelper.h:26-29 | size 1 needs more than the client's query buffer, sizes from 11 on more than its index buffer (`ClientBuffersFit`); for odd sizes the helper copies out what its own buffer held, whatever the value (`CreateLeft`, `CreateRight`) |
| a slot of the shared table is won once | Caravel/ConHash.h:107-120 | all-zero data leaves the slot empty; `SecondSetWinsIffZero` is the condition, and `ZeroDataReadsEmpty` what a reader then sees |
| the blind signature is accepted | Caravel/RSABlindSign.cpp:61-116 | r is drawn from 0 .. n-1 and never checked; `SucceedsIffCoprime` is the condition for a hash prime to n, `AcceptedIff` for any hash, and r = 0 an input (`ZeroRandomFails`) |
| the random server order serves every ring | Client/ClientCpp.cpp:461-479 | the array has 16 entries while a ring takes up to 100 nodes; `ServerOrder` completes if and only if there are at most 16 |
| every ring has counters | Client/ClientCpp.cpp:613-627 | there are maps for nine nodes while a ring takes up to 100; `CountersCoverIff`: at most nine nodes |

The comment at fastore/OREHelper.h:45 calls a positive iCmp "to >"; the code compares the query's value with the
stored one, so the range query returns the values below the bound. The model follows the code.

## Left out

- OreHelper.HelperCompares: even block sizes; for odd ones CreateLeft and CreateRight say what is copied out, which the
  value does not enter, so there is nothing to compare.
- OreMethods.SetupHelper: nbits 0, a first shift of 64 bits or more, and a slot number that takes more bytes than
  nbits does are excluded; the validity check lets them through, and the C code is then not defined.
- RandomOrder.ServerOrder: draws that stop bringing up some server, for which the inner loop need not end.
- Client.ClientCpp.Put: fewer than 2^32 - 1 puts, so that no 32-bit counter wraps; no index on a node behind the ninth,
  for which the source has no counter map; a value of at least four bytes when it is indexed by order, since the source
  reads four bytes; one writing client; even block sizes up to 10 for the order index.
- Client.ClientCpp.Search: table, column and value together within the 10240 bytes of the client's buffer.
- OreTheorems.DecisionIsRight: for a zero tag only ZeroTagHides is stated. The blocks below are then compared under
  unequal prefixes, where their tags are unrelated.
- RSABlindSign.RSABlindSign.BlindHash: the random number is a parameter. The source starts its generator afresh in
  every call and seeds it never, so for one modulus it always draws the same r.
- RSABlindSign.RSABlindSign.RemoveBlinding: the result of an inversion that does not exist is a parameter, as GMP
  leaves it undefined.
- RSABlindSign.RSABlindSign.ReadClientConf and ReadServerConf: strings that are not numerals, for which GMP reports an
  error that is ignored.
- Proxy.ProxyNode.EqualSearch: stands for EqualSearch1 and EqualSearch2, whose loops are the same.
- ConHash: threads are values of a state machine under sequential consistency rather than objects with fields, since
  the point is their interleaving; weak memory, attaching the segment and the two-dimensional overloads are left out.
- OreMethods.SetupQuery and SetupIndex: the one loop of the source is two here, one for each branch; the order of
  writes is kept.
- ore_key_setup: the derived keys are parameters; the generator's next block is the parameter nonce.
- The counter maps of the source are indexed by kind and then by node; here by node and then by kind.
- AES, SHA-256, HMAC, CBC with its padding and GMP internals, and every claim of secrecy.
- The older ore_blk_* functions, the plaintext baselines but for their server order, Redis with its MOVED redirects,
  Thrift, sockets, timers, shared-memory attach, and allocation, generator and randomness errors.
