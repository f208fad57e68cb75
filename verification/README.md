# Verified model of the link SDK's data handling

A Dafny model of four parts of the repository, with proofs about them.

* **JSON** (`src/libmqtt/cJSON/cJSON.c`). `JsonText` describes parsing and printing as functions over bytes;
  `JsonStrings` does the same for string literals and their two passes. `JsonRoundTrip` proves that parsing inverts
  printing, `JsonGrammar` and `JsonAccepted` that exactly the texts that begin with one of a grammar are read, as the tree
  they mean, and `JsonLayout` gives the printed bytes. `JsonHeap` is an explicit heap of items and texts, on which
  `JsonParser`, `JsonLists` and `JsonPrinter` model the routines of the source, statement by statement, against those
  functions: who owns which block, what is freed, and that every byte printed lies in its block.
* **Message queue and sessions** (`src/libmqtt/queue.c`, `src/libmqtt/control.c`). `MessageQueue` is the ring buffer,
  refined against a sequence with a history. `QueueThreads` is the same queue as a system of atomic steps of senders,
  receivers and a destroyer, with lock owners and condition variable, `QueueReplies` what its receives return. `Sessions`
  is the table that routes messages.
* **Media splitters** (`src/librtmp_wrapper`, and the header readers of `src/sample/devices/ipc_simulator.c`).
  `NalSplitter` and `AdtsSplitter` are inverses of encoders, `RtmpRepack` the copying into one buffer and the calls into
  the publishing library, `AdtsHeaders` the second reader of ADTS headers.
* **MQTT** (`src/libmqtt/mqtt.c`, `src/libmqtt/wolfmqtt/wolfmqtt.c`). `MqttStatus` is the change of error codes,
  `MqttReconnect` the reconnecting thread with its callbacks, `PacketIds` the identifiers.

`Bytes` holds what the byte-level modules share. `dafny verify dfyconfig.toml` checks the project.

## Where the code departs from its intent

The model follows the code. Where a promised property fails, the condition under which it holds is proved.

* `cJSON.c:181` joins a surrogate pair with an OR where an addition is meant: right exactly when bit 16 of the joined
  value is clear (`JsonStrings.PairExact`, and for whole texts `JsonAccepted.ParsesAsMeant`).
* `cJSON.c:100-120` and `cJSON.c:147-202` take more than section 2 of RFC 8259: a number without digits before the point or
  in the exponent, zeros before the digits, control bytes and any escaped byte in a string, and at the end of a text a string
  without its quote. `JsonAccepted.AcceptsExactly` says exactly what is accepted.
* `cJSON.c:502` does not free the name a new item already has: nothing is lost exactly when it has none
  (`JsonLists.OrphanExactly`).
* `h264_decode.c:74` measures the last unit from the one before. Both versions are modelled. `NalSplitter.LastSizeExact`
  and `RtmpRepack.AsWrittenExact` say when it makes no difference; `RtmpRepack.RtmpContext.RtmpSendVideo` uses the
  intended one.
* `h264_decode.c:43` keeps the overflow code in an unsigned variable, so the tests at lines 55 and 61 end nothing, and
  `h264_decode.c:70` expects a unit: the table is kept to exactly with at least one unit and no more than it has entries
  (`NalSplitter.TableExactly`).
* `h264_decode.c:50` scans up to and including the end, so that a start code right behind the frame counts
  (`NalSplitter.ScanInvertsEncode`).
* `adts.c:28-45` does not advance at a byte without a sync word (`AdtsSplitter.HangsExactly`).
* `rtmp_wapper.c:199-201` copies what a frame length claims, also behind the stream (`RtmpRepack.FramesInsideExact`).
* `queue.c:76` and `queue.c:107` let in senders and receivers that waited until Destroy was done: `pAlloc` can be touched
  after it is freed exactly when, at that point, a sender has not stored yet or a receiver waits while there is a message
  (`QueueThreads.TouchedExactly`), which `QueueThreads.NoUseAfterFree` rules out beforehand.
* `wolfmqtt.c:408-410` returns with `listMutex` locked (`MqttReconnect.JamsExactly`, `MqttReconnect.JammedForEver`).
* `control.c:24` takes the first session of an instance: a session gets exactly what arrives while it is that
  (`Sessions.RunRoutes`, `Sessions.FirstStaysExactly`); `control.c:72-75` leaves the slot of a failed subscription in use
  (`Sessions.InitAnswer`).

## Model

| member | source | states |
|---|---|---|
| JsonStrings.ContinuationByte | src/libmqtt/cJSON/cJSON.c:187-189 | as a number, the byte stored is the mark 0x80 plus the last six bits |
| JsonStrings.LeadByte | src/libmqtt/cJSON/cJSON.c:190 | as a number, the byte stored is the mark of the length plus the bits that are left |
| JsonStrings.SwitchIsUtf8 | src/libmqtt/cJSON/cJSON.c:184-192 | for every code point the shifts, ORs and masks of the switch store exactly the bytes of the UTF-8 function, as numbers |
| JsonStrings.Utf8Decodes | src/libmqtt/cJSON/cJSON.c:184-192 | what the switch stores is decoded by section 3 of RFC 3629 to the code point it was given, unless that is a surrogate |
| JsonStrings.PairBits | src/libmqtt/cJSON/cJSON.c:181 | for every surrogate pair the bit expression, as a number, is the pair function of the model: bit 16 is set, not added |
| JsonStrings.PairExact | src/libmqtt/cJSON/cJSON.c:171-193 | the joined pair reaches the code point of section 2.2 of RFC 2781 exactly when bit 16 of the joined bits is clear; otherwise the result is 0x10000 too small |
| JsonStrings.EscapeTranscodes | src/libmqtt/cJSON/cJSON.c:171-193 | an escape whose four digits spell, in whatever case, a number that is neither zero nor a surrogate is written as the UTF-8 of that code point, and six bytes are consumed |
| JsonStrings.Hex4Spells | src/libmqtt/cJSON/cJSON.c:172 | four bytes are read as a number exactly when they spell it with 0-9, A-F and a-f |
| JsonStrings.EscapeDropped | src/libmqtt/cJSON/cJSON.c:174-178 | a zero, a low surrogate, and a high one without an escape behind it are dropped |
| JsonStrings.PairDropped | src/libmqtt/cJSON/cJSON.c:176-180 | a high surrogate takes an escape behind it along even if that is no low one |
| JsonStrings.ShortEscapeRead | src/libmqtt/cJSON/cJSON.c:164-169 | a backslash and a byte of the table of section 7 of RFC 8259 are read as the table says, and any other byte but a u as itself; both are consumed |
| JsonStrings.ShortEscapeWritten | src/libmqtt/cJSON/cJSON.c:225-233 | exactly the bytes of that table, without the slash, are written with an escape of two bytes, and with that one |
| JsonStrings.PairTranscodes | src/libmqtt/cJSON/cJSON.c:171-193 | two escapes whose digits spell a surrogate pair are consumed together; they decode to the intended code point exactly when bit 16 is clear |
| JsonStrings.PairTooLow | src/libmqtt/cJSON/cJSON.c:171-193 | the escapes of U+20000 are decoded to U+10000 |
| JsonStrings.TwoWalksAgree | src/libmqtt/cJSON/cJSON.c:152-203 | on every well-formed literal the counting pass and the decoding pass stop at the same byte, and the decoded bytes never exceed the count |
| JsonStrings.DecodeNulFree | src/libmqtt/cJSON/cJSON.c:158-199 | a decoded string never contains a NUL, so its C length is its whole length |
| JsonStrings.DecodeLiteral | src/libmqtt/cJSON/cJSON.c:149-203 | the two passes stay inside their buffer and leave the decoded string, terminated, and the cursor at the closing quote or the end |
| JsonStrings.DecodePiece | src/libmqtt/cJSON/cJSON.c:160-197 | one turn of the decoding loop appends the bytes one piece of the literal stands for and goes on behind it |
| JsonStrings.StoreUtf8 | src/libmqtt/cJSON/cJSON.c:184-192 | storing backwards through the pointer leaves exactly the UTF-8 bytes of the code point behind what was there |
| JsonStrings.EscapeCountExact | src/libmqtt/cJSON/cJSON.c:212-238 | quotes, escapes and NUL of a printed string fill the len + 3 bytes of its block exactly |
| JsonStrings.EscapeText | src/libmqtt/cJSON/cJSON.c:212-239 | the printer stays inside its block and leaves the escaped text in quotes, terminated |
| JsonStrings.WriteEscape | src/libmqtt/cJSON/cJSON.c:221-236 | one turn of the escaping loop appends the escape of one byte |
| JsonStrings.StringRoundTrip | src/libmqtt/cJSON/cJSON.c:147-240 | wherever a printed string stands in a text, reading it there gives the string back and stops behind its closing quote |
| JsonText.ParseValue | src/libmqtt/cJSON/cJSON.c:271-283 | every successful parse ends strictly further on and inside the text; the mutual recursion terminates on the bytes left |
| JsonText.ParseItems | src/libmqtt/cJSON/cJSON.c:315-328 | the same for the items of an array |
| JsonText.ParseMembers | src/libmqtt/cJSON/cJSON.c:394-415 | the same for the members of an object |
| JsonText.ParseNumber | src/libmqtt/cJSON/cJSON.c:100-120 | number parsing never fails, consumes at least one byte and stays inside the text |
| JsonText.Skip | src/libmqtt/cJSON/cJSON.c:253 | only bytes 1 to 32 are passed over, and all of them |
| JsonRoundTrip.StandardIntegers | src/libmqtt/cJSON/cJSON.c:127-131 | the trees of the round trip have only numbers that print as a decimal integer |
| JsonRoundTrip.NumberRoundTrip | src/libmqtt/cJSON/cJSON.c:100-131 | a printed integer followed by nothing that extends it parses to itself and stops exactly at its end |
| JsonRoundTrip.ArrayRoundTrip | src/libmqtt/cJSON/cJSON.c:304-380 | the same for a printed array, followed by any text |
| JsonRoundTrip.ObjectRoundTrip | src/libmqtt/cJSON/cJSON.c:383-474 | the same for a printed object, followed by any text |
| JsonRoundTrip.ItemsRoundTrip | src/libmqtt/cJSON/cJSON.c:315-375 | the entries of a printed array, up to its bracket, parse back to the items |
| JsonRoundTrip.MembersRoundTrip | src/libmqtt/cJSON/cJSON.c:394-469 | the members of a printed object, up to its brace, parse back to names and values |
| JsonRoundTrip.ValueRoundTrip | src/libmqtt/cJSON/cJSON.c:253-474 | for every tree, depth and format, and at any cursor of any text: parsing what print_value writes yields the tree and stops exactly behind it |
| JsonRoundTrip.ParseInvertsPrint | src/libmqtt/cJSON/cJSON.c:256-301 | parsing inverts printing, formatted or not, whatever follows the text |
| JsonRoundTrip.PrintInjective | src/libmqtt/cJSON/cJSON.c:267-301 | trees that print the same, formatted or not, are the same |
| JsonRoundTrip.ParsedStandard | src/libmqtt/cJSON/cJSON.c:253-416 | whatever parses is a tree of the round trip exactly when its numbers are 32-bit integers |
| JsonRoundTrip.ReprintParses | src/libmqtt/cJSON/cJSON.c:253-474 | so any text that parses to such numbers can be printed, and parses to the same tree again, also with a NUL and anything else behind it |
| JsonGrammar.CharsRead | src/libmqtt/cJSON/cJSON.c:147-204 | characters of the grammar, wherever they stand up to a quote or the end, are read as the bytes they mean |
| JsonGrammar.NumeralRead | src/libmqtt/cJSON/cJSON.c:100-120 | any numeral, with fraction and exponent, is read as the exact number its digits mean, to its end |
| JsonGrammar.EntriesRead | src/libmqtt/cJSON/cJSON.c:310-328 | the entries of an array, with blanks before and after each, are read as their trees, to the bracket |
| JsonGrammar.MembersRead | src/libmqtt/cJSON/cJSON.c:389-416 | the members of an object, with blanks around names, colons and values, are read as names and trees, to the brace |
| JsonGrammar.DocRead | src/libmqtt/cJSON/cJSON.c:271-283 | wherever a text of the grammar stands that does not go on, it is read as the tree it means, to its end |
| JsonGrammar.GrammarParses | src/libmqtt/cJSON/cJSON.c:253-416 | cJSON_Parse reads every text of the grammar (section 2 of RFC 8259, given by bytes as numbers, and what cJSON takes besides) after any blanks, as the tree of its derivation, and stops right behind it |
| JsonAccepted.NumeralOf | src/libmqtt/cJSON/cJSON.c:100-120 | whatever parse_number reads is a numeral with that value |
| JsonAccepted.DocOf | src/libmqtt/cJSON/cJSON.c:271-416 | whatever parse_value reads is a text of the grammar with that tree |
| JsonAccepted.ParsedIsDerived | src/libmqtt/cJSON/cJSON.c:256-283 | whatever parses is, to where the parser stops, blanks and a text of the grammar, and gives its tree |
| JsonAccepted.AcceptsExactly | src/libmqtt/cJSON/cJSON.c:256-283 | exactly the texts that begin with blanks and a text of the grammar are accepted |
| JsonAccepted.ParsesAsMeant | src/libmqtt/cJSON/cJSON.c:171-283 | the tree a text parses to is the one it means exactly when no surrogate pair in it has bit 16 of its joined bits set |
| JsonLayout.LiteralsPrinted | src/libmqtt/cJSON/cJSON.c:292-294 | the printed bytes of null, false and true |
| JsonLayout.NumberPrinted | src/libmqtt/cJSON/cJSON.c:127-131 | a 32-bit integer is printed with the digits that mean it, without a leading zero, behind a minus if negative |
| JsonLayout.EscapePrinted | src/libmqtt/cJSON/cJSON.c:221-236 | a byte is printed for itself, with its escape of the table, or in lower-case hexadecimal |
| JsonLayout.ArrayPrinted | src/libmqtt/cJSON/cJSON.c:368-379 | an array is its entries between brackets, with a comma, and a space if formatted, between any two |
| JsonLayout.ObjectPrinted | src/libmqtt/cJSON/cJSON.c:455-473 | an object is a line for each member, with tabs for its depth, name, colon, tab and value, a comma before every next line, and its brace on a line of its own; or the same without white space |
| JsonHeap.Heap.Malloc | src/libmqtt/cJSON/cJSON.c:50 | an allocation fails without effect or adds a block with a fresh address |
| JsonHeap.Heap.Free | src/libmqtt/cJSON/cJSON.c:51 | only a live block can be freed, so a double free would not verify |
| JsonHeap.Heap.NewItem | src/libmqtt/cJSON/cJSON.c:77-82 | a new item is zeroed, or memory is short |
| JsonHeap.Heap.Strdup | src/libmqtt/cJSON/cJSON.c:53-62 | a copy of a text in a block of its own, or memory is short |
| JsonHeap.Heap.Delete | src/libmqtt/cJSON/cJSON.c:85-97 | exactly the blocks owned by the chain of items are freed, each once; a reference item gives up only itself and its name |
| JsonHeap.Heap.DeleteItem | src/libmqtt/cJSON/cJSON.c:90-95 | the same for one item of the chain |
| JsonHeap.OwnsFrame | src/libmqtt/cJSON/cJSON.c:85-97 | who owns which blocks does not depend on any other block |
| JsonHeap.ChainSplit | src/libmqtt/cJSON/cJSON.c:318-325 | a doubly linked chain can be cut anywhere into two chains that share no block |
| JsonHeap.ChainJoin | src/libmqtt/cJSON/cJSON.c:482 | two chains that point at each other and share no block are one well-formed chain |
| JsonParser.SkipBlanks | src/libmqtt/cJSON/cJSON.c:253 | the loop stops where the specification does |
| JsonParser.ReadNumber | src/libmqtt/cJSON/cJSON.c:100-120 | the loops compute sign, digits, fraction and exponent as the specification function, in exact arithmetic |
| JsonParser.ParseString | src/libmqtt/cJSON/cJSON.c:147-204 | string and item are linked, or the item is left without a string; nothing else changes on the heap |
| JsonParser.KidAddedOwned | src/libmqtt/cJSON/cJSON.c:313-322 | hanging a new item behind the last child keeps the tree well formed and adds just its block |
| JsonParser.EntriesStep | src/libmqtt/cJSON/cJSON.c:315-328 | arrays and objects are one loop over entries, with the same result as the recursive specification |
| JsonParser.EntriesAdvance | src/libmqtt/cJSON/cJSON.c:318-328 | the entries read so far followed by the rest are always the whole result |
| JsonParser.ParseValue | src/libmqtt/cJSON/cJSON.c:271-283 | success leaves on the heap exactly the tree of the specification function and its cursor; on failure everything allocated hangs on the item; failure means refused text or short memory |
| JsonParser.ParseContainer | src/libmqtt/cJSON/cJSON.c:304-329 | the same for the two containers (objects at 383-416) |
| JsonParser.ParseMember | src/libmqtt/cJSON/cJSON.c:394-411 | the same for one member; its string becomes its name |
| JsonParser.ParseNextEntry | src/libmqtt/cJSON/cJSON.c:313-324 | the same for one entry and the linking of its item |
| JsonParser.ParseEntries | src/libmqtt/cJSON/cJSON.c:313-328 | the same for the loop over all entries |
| JsonParser.Parse | src/libmqtt/cJSON/cJSON.c:256-264 | success allocates exactly the blocks of the tree that the text stands for, behind any blanks (JsonGrammar.GrammarParses, JsonAccepted.AcceptsExactly); failure, also by short memory at any point, leaves the heap as it was, and means that the text is refused or that an allocation of this very call failed |
| JsonLists.AppendedOwned | src/libmqtt/cJSON/cJSON.c:482-487 | linking an item behind the last child keeps the chain doubly linked and acyclic and appends to the sequence |
| JsonLists.DetachedOwned | src/libmqtt/cJSON/cJSON.c:492-493 | unlinking a child leaves a well-formed chain without it; child and rest own disjoint parts of what the tree owned |
| JsonLists.ReplacedOwned | src/libmqtt/cJSON/cJSON.c:499-501 | relinking around a child puts the new item in its place; the old one is loose and owns what it owned |
| JsonLists.GetArraySize | src/libmqtt/cJSON/cJSON.c:477 | the length of the child sequence |
| JsonLists.GetArrayItem | src/libmqtt/cJSON/cJSON.c:478 | the child at the index, NULL beyond the end, the first child for a negative index |
| JsonLists.NamesDiffer | src/libmqtt/cJSON/cJSON.c:43-48 | zero exactly for names equal up to ASCII case; NULL equals only NULL |
| JsonLists.LowerMatches | src/libmqtt/cJSON/cJSON.c:46 | two bytes match exactly when they are equal or the two cases of one ASCII letter |
| JsonLists.GetObjectItem | src/libmqtt/cJSON/cJSON.c:479 | the first child with the name, and how many stand before it |
| JsonLists.AddItemToArray | src/libmqtt/cJSON/cJSON.c:487 | the sequence of children grows by the item at its end; nothing else is owned differently; NULL changes nothing |
| JsonLists.AddItemToObject | src/libmqtt/cJSON/cJSON.c:488 | the item is renamed, its old name freed, and it becomes the last member |
| JsonLists.DetachItemFromArray | src/libmqtt/cJSON/cJSON.c:492-493 | the child at the index leaves the sequence and is loose; an index beyond the end changes nothing |
| JsonLists.DetachItemFromObject | src/libmqtt/cJSON/cJSON.c:495 | the same for the first child with the name |
| JsonLists.DeleteItemFromArray | src/libmqtt/cJSON/cJSON.c:494 | exactly the blocks of the removed child are freed |
| JsonLists.DeleteItemFromObject | src/libmqtt/cJSON/cJSON.c:496 | the same for the first child with the name |
| JsonLists.ReplaceItemInArray | src/libmqtt/cJSON/cJSON.c:499-501 | the sequence is updated at the index and exactly the old child is freed |
| JsonLists.LinkIn | src/libmqtt/cJSON/cJSON.c:500 | the new item points at the neighbours, and the next one at it |
| JsonLists.ReplaceLinks | src/libmqtt/cJSON/cJSON.c:500-501 | the stores, in order, up to the deletion |
| JsonLists.ReplaceItemInObject | src/libmqtt/cJSON/cJSON.c:502 | the sequence is updated at the first child with the name, with the item renamed; nothing outside the two trees changes |
| JsonLists.OrphanExactly | src/libmqtt/cJSON/cJSON.c:502 | what is left without an owner is exactly the name the new item had before; so nothing is, exactly when it had none |
| JsonLists.NamedItemIsOrphaned | src/libmqtt/cJSON/cJSON.c:502 | an object and a named item for which a text is lost |
| JsonLists.SetName | src/libmqtt/cJSON/cJSON.c:488 | an item gets a copy of the name; the old name is freed or left behind |
| JsonLists.CreateReference | src/libmqtt/cJSON/cJSON.c:484 | the copy shares children and string with the original, and owns only itself |
| JsonLists.AddItemReferenceToArray | src/libmqtt/cJSON/cJSON.c:489 | the list gains one item that owns one block, while the original keeps what it owns; no other block changes |
| JsonLists.AddItemReferenceToObject | src/libmqtt/cJSON/cJSON.c:490 | the new item owns its name besides; no other block changes |
| JsonLists.ReferencesShareNothing | src/libmqtt/cJSON/cJSON.c:85-97 | with references present the two trees can be deleted in either order, and no block is freed twice or missed |
| JsonPrinter.PrintedNulFree | src/libmqtt/cJSON/cJSON.c:286-301 | no printed text has a NUL inside, so strlen and strcpy take all of it |
| JsonPrinter.DecimalFits | src/libmqtt/cJSON/cJSON.c:129-130 | a 32-bit integer prints in at most 11 of the 21 bytes |
| JsonPrinter.PrintNumber | src/libmqtt/cJSON/cJSON.c:123-131 | the integer path writes the decimal numeral, inside its 21 bytes |
| JsonPrinter.PrintStringPtr | src/libmqtt/cJSON/cJSON.c:207-240 | the quoted text, or the empty text for NULL |
| JsonPrinter.StrCpy | src/libmqtt/cJSON/cJSON.c:373 | the bytes up to and including the terminator land inside the block |
| JsonPrinter.RenderValue | src/libmqtt/cJSON/cJSON.c:286-301 | the text printed from the nodes on the heap is PrintValue of the tree they show; every byte written lies in its block |
| JsonPrinter.RenderArray | src/libmqtt/cJSON/cJSON.c:332-380 | the same for arrays |
| JsonPrinter.RenderItems | src/libmqtt/cJSON/cJSON.c:340-353 | the entries are printed in order and len is their reservation |
| JsonPrinter.ComposeArray | src/libmqtt/cJSON/cJSON.c:369-378 | in a block of that size brackets, entries, separators and every transient terminator fit, and the result is the array text |
| JsonPrinter.ComposeItems | src/libmqtt/cJSON/cJSON.c:371-376 | the loop appends the text of all entries and leaves four bytes of the block |
| JsonPrinter.ComposeItem | src/libmqtt/cJSON/cJSON.c:373-374 | one turn of it, with the terminator strcpy leaves |
| JsonPrinter.RenderObject | src/libmqtt/cJSON/cJSON.c:419-474 | the same for objects |
| JsonPrinter.RenderMembers | src/libmqtt/cJSON/cJSON.c:436-443 | names and values are printed in order and len is their reservation |
| JsonPrinter.RenderMember | src/libmqtt/cJSON/cJSON.c:439-441 | one name and one value are printed, and their lengths measured |
| JsonPrinter.ComposeObject | src/libmqtt/cJSON/cJSON.c:458-472 | in a block of that size the object text fits with every transient terminator |
| JsonPrinter.ComposeMembers | src/libmqtt/cJSON/cJSON.c:459-468 | the loop appends the text of all members and leaves the closing indentation, the brace and the NUL their room |
| JsonPrinter.ComposeMember | src/libmqtt/cJSON/cJSON.c:461-466 | one turn of it |
| JsonPrinter.CloseObject | src/libmqtt/cJSON/cJSON.c:471-472 | the closing indentation, brace and NUL |
| JsonPrinter.ItemsRoomExact | src/libmqtt/cJSON/cJSON.c:351 | by how much the reservation for entries exceeds what they take |
| JsonPrinter.MembersRoomExact | src/libmqtt/cJSON/cJSON.c:441 | the same for members: by one byte in all |
| JsonPrinter.BlocksExact | src/libmqtt/cJSON/cJSON.c:335-472 | exactly how many bytes of a container block stay unused behind text and NUL |
| JsonPrinter.OwnedShows | src/libmqtt/cJSON/cJSON.c:286-301 | a tree as the parser leaves it shows its value to the printer |
| JsonPrinter.HeapRoundTrip | src/libmqtt/cJSON/cJSON.c:253-474 | for any text with 32-bit integers for its numbers: what the parser left on the heap can be printed, and the block the printer fills, read as a text, parses to the same tree |
| MessageQueue.StepConserves | src/libmqtt/queue.c:69-129 | a send or receive keeps every message sent in exactly one place: gone, in sending order, or queued behind those |
| MessageQueue.RunConserves | src/libmqtt/queue.c:69-129 | the same over every run |
| MessageQueue.RunAccounts | src/libmqtt/queue.c:69-129 | over every run the messages sent are, as a multiset, those received, those evicted and those queued |
| MessageQueue.RunEvictsLate | src/libmqtt/queue.c:78-91 | over every run a message is evicted only when at least nCapacity messages have been sent after it |
| MessageQueue.BurstKeepsLatest | src/libmqtt/queue.c:78-91 | any number of sends without a receive leaves the latest nCapacity messages of all, in order |
| MessageQueue.SlotMod | src/libmqtt/queue.c:82-90 | stepping an index with wrap-around is addition modulo the capacity |
| MessageQueue.RingAppend | src/libmqtt/queue.c:79-84 | a store at nNextIn appends to the contents while there is room |
| MessageQueue.RingOverwrite | src/libmqtt/queue.c:79-91 | in a full ring the store hits the oldest message, and moving nNextOut past it yields append and drop the oldest |
| MessageQueue.RingDrop | src/libmqtt/queue.c:120-125 | moving nNextOut past a message removes the oldest |
| MessageQueue.MessageQueue.constructor | src/libmqtt/queue.c:18-43 | a new queue is empty, and valid exactly when its capacity is not 0 |
| MessageQueue.MessageQueue.CreateMessageQueue | src/libmqtt/queue.c:18-43 | NULL exactly when memory is short |
| MessageQueue.MessageQueue.SendMessage | src/libmqtt/queue.c:69-97 | the ring refines "append, keep the last nCapacity", with nNextIn = (nNextOut + nSize) mod nCapacity before and after |
| MessageQueue.MessageQueue.Pop | src/libmqtt/queue.c:119-125 | the oldest message, which leaves the queue |
| MessageQueue.MessageQueue.ReceiveMessage | src/libmqtt/queue.c:99-129 | the oldest message; on an empty queue a wait, or NULL once invalid |
| MessageQueue.MessageQueue.ReceiveMessageTimeout | src/libmqtt/queue.c:131-179 | the oldest message, or NULL after the timeout |
| QueueThreads.InvKept | src/libmqtt/queue.c:45-179 | every atomic step of every thread keeps the invariant on lock owners, sleepers, flags and messages |
| QueueThreads.RunInv | src/libmqtt/queue.c:45-179 | the invariant holds in every reachable state, for any number of senders and receivers |
| QueueThreads.OneSleeper | src/libmqtt/queue.c:107-116 | at most one thread sleeps on consumerCond, since it keeps holding destroyMutex |
| QueueThreads.SignalWakesAll | src/libmqtt/queue.c:94 | a single signal leaves nobody asleep |
| QueueThreads.NoLostWakeup | src/libmqtt/queue.c:76-177 | no reachable state has a message, a sleeping receiver and no signal about to come |
| QueueThreads.MessagesConserved | src/libmqtt/queue.c:69-179 | under every interleaving no message is lost or doubled and the order of sending is kept; what the receives return of them is QueueReplies.ReturnedInOrder |
| QueueReplies.ReturnedInOrder | src/libmqtt/queue.c:97-179 | over every run the messages that receives have returned, in the order of returning, and then the one that a receive has taken and is about to return, are exactly those received from the queue, in order |
| QueueReplies.DecisionReturned | src/libmqtt/queue.c:107-178 | a receive that finds a message at its test, or behind a timed wait that was woken in time on a valid queue, returns the message that was then the oldest; one that finds the queue invalid, or whose wait has expired, returns NULL |
| QueueReplies.WaitsExactly | src/libmqtt/queue.c:107-156 | a receive begins to wait, and gives up only the mutex, exactly when there is no message and it has a deadline or the queue is valid |
| QueueThreads.FreedWithoutReceiver | src/libmqtt/queue.c:56-60 | when pAlloc is freed no receiver is between taking and releasing destroyMutex |
| QueueThreads.NoUseAfterFree | src/libmqtt/queue.c:45-67 | if no sender is in flight, and no receiver outside destroyMutex, when Destroy begins and no call starts later, nothing touches pAlloc after it is freed |
| QueueThreads.DrainedUntouched | src/libmqtt/queue.c:45-67 | with receivers waiting too nothing touches pAlloc any more, if no sender is in flight and the queue is empty |
| QueueThreads.TouchedExactly | src/libmqtt/queue.c:56-129 | as pAlloc is about to be freed, some run goes on to touch it afterwards exactly when a sender has not stored yet or a receiver waits while there is a message |
| QueueThreads.PopAfterFree | src/libmqtt/queue.c:45-129 | a run in which a receiver that waited for destroyMutex takes a message from the freed array |
| QueueThreads.WaitsAreShort | src/libmqtt/queue.c:50-177 | no chain of lock waits is longer than three threads; so there is no cycle |
| QueueThreads.StepsRunOut | src/libmqtt/queue.c:50-66 | once bIsValid is cleared and signalled every step lessens the statements left |
| QueueThreads.ClosedRunsEnd | src/libmqtt/queue.c:50-66 | from a state in which bIsValid is cleared and signalled every run ends, within a bound known beforehand |
| QueueThreads.ClosedGoesOn | src/libmqtt/queue.c:50-66 | such a run is not at its end as long as a call has not returned |
| QueueThreads.ClosedRunsFinish | src/libmqtt/queue.c:45-179 | together: such a run that nothing can extend but a spurious wakeup has returned from every call |
| QueueThreads.SleeperReturnsNull | src/libmqtt/queue.c:107-117 | a receive asleep without a deadline while Destroy is under way and no sender is in flight is only ever on its way to returning NULL, whoever waits for destroyMutex |
| QueueThreads.SleeperHasReturned | src/libmqtt/queue.c:107-117 | and when the run has come to its end it has returned |
| MqttStatus.ErrorStatusChange | src/libmqtt/wolfmqtt/wolfmqtt.c:20-58 | every library code becomes a status of the interface, and success exactly for success |
| MqttStatus.StatusMeans | src/libmqtt/wolfmqtt/wolfmqtt.c:20-58 | for each status exactly the codes that give it |
| Sessions.AfterSound | src/libmqtt/control.c:14-187 | after every event a used slot has an instance and a live queue that conserves its messages |
| Sessions.RunSound | src/libmqtt/control.c:14-187 | the same over every run of events |
| Sessions.InitAnswer | src/libmqtt/control.c:43-77 | the answer is a slot number exactly when a slot was free, the instance is not NULL, there was memory and the subscription succeeded; error codes are no slot numbers; a failed subscription leaves its slot used |
| Sessions.InitCodes | src/libmqtt/control.c:43-77 | 3003 without a free slot or an instance, else 3001 without memory, else what has become of the subscription, else the first free slot |
| Sessions.RecvAnswers | src/libmqtt/control.c:121-131 | the oldest data exactly for a session in use that has some, 3019 exactly for one that has none, 3003 exactly for a number that is no session in use |
| Sessions.RunRoutes | src/libmqtt/control.c:14-167 | over every run that does not end it a session gets exactly the messages that arrive while it is the first one of its instance, in order, and hands over exactly what it received, in order; none is lost before 32 more have been sent to it |
| Sessions.FirstStaysExactly | src/libmqtt/control.c:23-29 | the first session of an instance stays the first exactly unless it ends or a lower slot is set up for the instance |
| Sessions.FirstGetsAll | src/libmqtt/control.c:14-167 | as long as neither happens it gets all messages of the instance |
| Sessions.ShadowedGetsNothing | src/libmqtt/control.c:23-29 | over every run a later session of the instance gets nothing as long as no lower slot is given up |
| Sessions.SecondSession | src/libmqtt/control.c:14-77 | a run with two sessions of one instance: the second gets its first message after the first has ended |
| Sessions.SessionTable.constructor | src/libmqtt/control.c:11 | at the start no slot is used |
| Sessions.SessionTable.OnMessage | src/libmqtt/control.c:14-41 | the table changes as the abstract event says |
| Sessions.SessionTable.InitIOCtrl | src/libmqtt/control.c:43-77 | the same, with the returned code |
| Sessions.SessionTable.RecvIOCtrl | src/libmqtt/control.c:120-167 | the same, with the code or the data handed over; a negative session reads before the table |
| Sessions.SessionTable.DinitIOCtrl | src/libmqtt/control.c:175-187 | the same; the slot is free afterwards; a negative session reads before the table |
| Sessions.SessionTable.TableSound | src/libmqtt/control.c:11 | every state of the table is sound |
| NalSplitter.ScanOrdered | src/librtmp_wrapper/h264_decode.c:50-68 | for any bytes the units found lie in order, apart by their start codes, and start at most four bytes behind the frame |
| NalSplitter.LastSizeExact | src/librtmp_wrapper/h264_decode.c:69-75 | the size stored for the last unit is its own exactly when there is a single unit; otherwise it is too large by the distance to the unit before |
| NalSplitter.TailCleanExact | src/librtmp_wrapper/h264_decode.c:50-68 | all units start inside the frame exactly when no start code reaches over its end |
| NalSplitter.ScanSound | src/librtmp_wrapper/h264_decode.c:50-67 | every unit found has a start code of its length right before it |
| NalSplitter.UnitsTile | src/librtmp_wrapper/h264_decode.c:50-77 | for any bytes the units start inside the frame exactly when no start code reaches over its end, and then the frame, from the first start code to its end, is the encoding of the units found; no start code begins before the first or inside a unit (last size from its own address) |
| NalSplitter.NothingPassedOver | src/librtmp_wrapper/h264_decode.c:50-67 | wherever a start code begins, the scan has found one that covers that place |
| NalSplitter.ScanInvertsEncode | src/librtmp_wrapper/h264_decode.c:50-67 | of any units without embedded start code or trailing zero, joined with any mix of start codes, exactly those are found, in order, exactly when no start code stands right behind the frame |
| NalSplitter.PlacedUnits | src/librtmp_wrapper/h264_decode.c:28-31 | their stored positions, sizes and types are those of the units |
| NalSplitter.TableExactly | src/librtmp_wrapper/h264_decode.c:43-77 | every entry read or written lies in the table exactly when the frame has a unit and no more than there are entries |
| NalSplitter.EncodedInTable | src/librtmp_wrapper/h264_decode.c:43-77 | the same for encoded frames, in the number of units |
| NalSplitter.NoUnitOutside | src/librtmp_wrapper/h264_decode.c:70 | a frame of any length without a start code is stored before the table |
| NalSplitter.OneUnitTooMany | src/librtmp_wrapper/h264_decode.c:28-37 | a frame with one unit more than there are entries is stored behind it |
| NalSplitter.H264DecodeNalu | src/librtmp_wrapper/h264_decode.c:20-38 | address and type go into the next entry and the size of the one before becomes known; the overflow code is returned for the last entry |
| NalSplitter.ScanFrame | src/librtmp_wrapper/h264_decode.c:50-67 | the loop enters exactly the units of the scan, the overflow code, being compared as unsigned, ending nothing; it leaves the table exactly when there are more units than entries |
| NalSplitter.H264DecodeFrame | src/librtmp_wrapper/h264_decode.c:40-80 | the table and the sizes as they are written, and whether an entry outside the table is touched |
| NalSplitter.H264DecodeFrameIntended | src/librtmp_wrapper/h264_decode.c:40-80 | the table with the last size measured from the last unit, and whether an entry outside the table is touched |
| AdtsSplitter.HeaderRead | src/librtmp_wrapper/adts.c:29-37 | sync word, header length and frame length of an encoded packet read back as written |
| AdtsSplitter.FirstPacket | src/librtmp_wrapper/adts.c:29-38 | of encoded packets the first is read as written and the next is found at its end, at least seven bytes on |
| AdtsSplitter.WalkFrom | src/librtmp_wrapper/adts.c:28-49 | at most as many frames as there is room for; an overflow exactly when the table is filled |
| AdtsSplitter.WalkFindsPackets | src/librtmp_wrapper/adts.c:28-49 | from any place with encoded packets up to the end exactly their payloads are found |
| AdtsSplitter.WalkInvertsEncode | src/librtmp_wrapper/adts.c:28-49 | of any list of framed payloads all are returned in order when fewer than the capacity, otherwise the first ones with ADTS_OVERFLOW; whatever stands behind the stream |
| AdtsSplitter.HangsExactly | src/librtmp_wrapper/adts.c:28-45 | after no number of turns has the loop ended, exactly when, with room left, the frame lengths lead to a place inside the stream without a sync word |
| AdtsSplitter.WalkIsLoop | src/librtmp_wrapper/adts.c:28-49 | the walk is the loop turn by turn: where the loop ends, within one turn an entry, it has the frames of the walk, and where it does not the walk says so |
| AdtsSplitter.PaddingHangs | src/librtmp_wrapper/adts.c:28-45 | of any framed packets, too few to fill the table, with padding behind them the loop is never done |
| AdtsSplitter.AacDecodeAdts | src/librtmp_wrapper/adts.c:17-50 | the table, its count and its codes, or that the loop turns for ever |
| RtmpRepack.RtmpContext.RtmpNewContext | src/librtmp_wrapper/rtmp_wapper.c:22-55 | a context exactly when there is a URL, memory and an initialised publisher; it has both restart flags set |
| RtmpRepack.BodiesFit | src/librtmp_wrapper/rtmp_wapper.c:91-124 | for any bytes every unit with a positive size lies in the frame, and the bodies copied sum to at most _nSize |
| RtmpRepack.RepackedUnits | src/librtmp_wrapper/rtmp_wapper.c:80-124 | end to end from the encoder: the buffer is the concatenation of the units with type 5 or 1, in order and byte by byte; with the flag set the calls are SPS, each behind its time base, and PPS for the units with type 7 and 8, in order and with their bytes, up to the first PPS; without it none |
| RtmpRepack.AsWrittenParts | src/librtmp_wrapper/h264_decode.c:69-75 | with the size as written all entries but the last of several are as intended |
| RtmpRepack.AsWrittenExact | src/librtmp_wrapper/rtmp_wapper.c:111-115 | with the size as written the copies stay in the frame exactly when there is one unit, or the last is no body, or nothing follows the start code of the one before; and exactly when the total fits the buffer |
| RtmpRepack.AsWrittenOverruns | src/librtmp_wrapper/rtmp_wapper.c:111-115 | a frame of eleven bytes for which twelve are copied |
| RtmpRepack.BodiesStep | src/librtmp_wrapper/rtmp_wapper.c:111-120 | one unit appends its bytes if it is a body, and the rest still has its room |
| RtmpRepack.SetupStep | src/librtmp_wrapper/rtmp_wapper.c:93-110 | one unit adds its calls only while the flag is set, which the first PPS clears; which calls these are is RtmpRepack.RepackedUnits |
| RtmpRepack.SetupEnds | src/librtmp_wrapper/rtmp_wapper.c:93-110 | the parameter sets of a frame end with a PPS, their only one, exactly when the flag was set and the frame has one |
| RtmpRepack.ParametersSetOnce | src/librtmp_wrapper/rtmp_wapper.c:93-110 | over any run of frames at most one PPS is handed over and nothing after it; one is exactly when some frame has one |
| RtmpRepack.RtmpContext.RepackVideo | src/librtmp_wrapper/rtmp_wapper.c:91-124 | the loop copies the bodies and makes the setup calls of the units |
| RtmpRepack.RtmpContext.RepackUnit | src/librtmp_wrapper/rtmp_wapper.c:92-122 | one turn of it |
| RtmpRepack.RtmpContext.RtmpSendVideo | src/librtmp_wrapper/rtmp_wapper.c:57-149 | calls, restart flag and result of one frame; the buffer sent is the bodies and fits; an entry outside the table is touched exactly for a frame without a unit or with more than 64 |
| RtmpRepack.FramesInsideExact | src/librtmp_wrapper/adts.c:35-38 | the frames found lie in the stream exactly when it ends where the last frame ends, or that has no payload |
| RtmpRepack.PayloadsFit | src/librtmp_wrapper/rtmp_wapper.c:198-206 | frames that lie in the stream sum to at most _nSize |
| RtmpRepack.RepackedPackets | src/librtmp_wrapper/rtmp_wapper.c:186-206 | end to end from the encoder: the buffer is the concatenation of the payloads, fewer than the table has entries |
| RtmpRepack.PayloadsStep | src/librtmp_wrapper/rtmp_wapper.c:199-205 | one frame appends its payload, and the rest still has its room |
| RtmpRepack.RtmpContext.RepackAudio | src/librtmp_wrapper/rtmp_wapper.c:198-206 | the loop copies the non-empty payloads |
| RtmpRepack.RtmpContext.RtmpSendAudio | src/librtmp_wrapper/rtmp_wapper.c:151-219 | calls, restart flag and result of one stream; nothing is sent when the table is filled; the call hangs, or copies bytes from behind the stream, exactly as its splitting says |
| AdtsHeaders.Gather | src/sample/devices/ipc_simulator.c:141-148 | the shift-and-or accumulation is the 56 bits of the header, first byte first |
| AdtsHeaders.ParseAdtsFixedHeader | src/sample/devices/ipc_simulator.c:157-179 | the fixed fields are cut out at their places |
| AdtsHeaders.ParseAdtsVariableHeader | src/sample/devices/ipc_simulator.c:140-155 | the variable fields are; the 14-bit mask stored in 13 bits is the 13-bit mask |
| AdtsHeaders.ReadWritten | src/sample/devices/ipc_simulator.c:140-179 | reading a header laid out by section 6.2 of ISO/IEC 13818-7 gives back every field |
| AdtsHeaders.WriteRead | src/sample/devices/ipc_simulator.c:140-179 | the fields together hold all 56 bits |
| AdtsHeaders.ReadersAgree | src/librtmp_wrapper/adts.c:30-35 | for all header bytes the masks and shifts of AacDecodeAdts give the fields of the other reader |
| AdtsHeaders.SplitterAgrees | src/librtmp_wrapper/adts.c:29-37 | the same for the splitter of this model at any place in memory |
| AdtsHeaders.SplitterBits | src/librtmp_wrapper/adts.c:30-35 | so the masks and shifts of the source are, as numbers, the arithmetic of that splitter |
| AdtsHeaders.MaskOneBitTooWide | src/sample/devices/ipc_simulator.c:152 | without the truncation the masked value is the frame length exactly when the bit before it is clear |
| MqttReconnect.ErrorsReportedOnce | src/libmqtt/mqtt.c:73-81 | over any sequence of codes no two errors are reported in a row |
| MqttReconnect.ChangesReported | src/libmqtt/mqtt.c:73-81 | and the last report always tells whether the last code was an error |
| MqttReconnect.ReportsExactly | src/libmqtt/mqtt.c:73-81 | a code is reported exactly when it or the code before it is below 3001 |
| MqttReconnect.MqttInstance.constructor | src/libmqtt/mqtt.c:83-101 | a new instance is idle, unconnected and not being destroyed; its last status is arbitrary |
| MqttReconnect.MqttInstance.OnEventCallback | src/libmqtt/mqtt.c:73-81 | the code is recorded, and reported unless it repeats an error |
| MqttReconnect.MqttInstance.LinkMqttConnect | src/libmqtt/wolfmqtt/wolfmqtt.c:312-367 | success exactly with a client context and two successful library calls, and only then the instance is connected |
| MqttReconnect.MqttInstance.ConnectTurn | src/libmqtt/mqtt.c:116-129 | undisturbed, a turn attempts exactly when unconnected and not connecting, and never leaves the status at STATUS_CONNECTING |
| MqttReconnect.MqttInstance.OnDisconnectCallback | src/libmqtt/wolfmqtt/wolfmqtt.c:165-191 | a timeout changes nothing; any other code disconnects, with STATUS_IDLE exactly for success |
| MqttReconnect.InvKept | src/libmqtt/mqtt.c:103-145 | every step of the thread, of a callback, of a publishing thread or of LinkMqttDestroy keeps the invariant |
| MqttReconnect.RunInv | src/libmqtt/mqtt.c:103-145 | it holds after any events in any order |
| MqttReconnect.NeverConnectingAtHead | src/libmqtt/mqtt.c:115-134 | at the head of the loop the status is never STATUS_CONNECTING, and there have been as many attempts as turns that began unconnected |
| MqttReconnect.UnconnectedTurnConnects | src/libmqtt/mqtt.c:116-121 | a turn that begins unconnected attempts a connection before the next turn, for every outcome and whatever callbacks come in between |
| MqttReconnect.ConnectedExactly | src/libmqtt/wolfmqtt/wolfmqtt.c:165-391 | over every run the instance is connected exactly when the last of the statements that write connected is the one behind a successful attempt, and not one of a disconnect callback or the end of the thread |
| MqttReconnect.ConnectsAfterBoth | src/libmqtt/wolfmqtt/wolfmqtt.c:343-359 | over every run the thread comes to that statement exactly behind a connection and an acknowledgement that have both succeeded |
| MqttReconnect.CallbacksRunThrough | src/libmqtt/wolfmqtt/wolfmqtt.c:165-186 | over every run each callback for a code other than the timeout clears connected twice before it ends |
| MqttReconnect.StatusExactly | src/libmqtt/wolfmqtt/wolfmqtt.c:180-185 | which statements write the status, and what: a callback that ends leaves 0 exactly for success, and 4 otherwise |
| MqttReconnect.LostConnectionRemade | src/libmqtt/mqtt.c:115-134 | when a disconnect callback has cleared connected, and nothing has set it since, the next turn that begins attempts a connection before another one begins |
| MqttReconnect.HeldUpExactly | src/libmqtt/wolfmqtt/wolfmqtt.c:393-425 | the thread is held up only at its mutex: while another thread holds it, or once it has returned from a ping without unlocking |
| MqttReconnect.JamsExactly | src/libmqtt/wolfmqtt/wolfmqtt.c:400-419 | over every run the thread has listMutex outside LinkMqttLoop exactly when one of its pings has returned MQTT_CODE_CONTINUE |
| MqttReconnect.MutexLost | src/libmqtt/wolfmqtt/wolfmqtt.c:407-410 | and then it keeps it: nobody can lock it any more |
| MqttReconnect.Jams | src/libmqtt/wolfmqtt/wolfmqtt.c:407-410 | a run into it, with the instance connected |
| MqttReconnect.JammedForEver | src/libmqtt/wolfmqtt/wolfmqtt.c:400-410 | from then on there is at most one more attempt, and a thread at the mutex stays there, even when destroyed |
| MqttReconnect.DestroyEnds | src/libmqtt/mqtt.c:134-144 | once destroyed the thread is done after a bounded number of its own steps |
| PacketIds.Generator.GetPacketId | src/libmqtt/wolfmqtt/wolfmqtt.c:60-64 | the next identifier, within 16 bits and not 0; the counter stays reachable |
| PacketIds.ClosedForm | src/libmqtt/wolfmqtt/wolfmqtt.c:60-64 | from any reachable counter the k-th identifier is (counter + k) mod 65535 + 1 |
| PacketIds.SameIdExactly | src/libmqtt/wolfmqtt/wolfmqtt.c:60-64 | two identifiers are equal exactly when a multiple of 65535 calls lies between them |
| PacketIds.WindowDistinct | src/libmqtt/wolfmqtt/wolfmqtt.c:11-64 | any 65535 consecutive identifiers are pairwise distinct and take every value from 1 to 65535 |

## Left out

JSON

- Fractions, exponents and large numbers are read with exact real arithmetic instead of `double` and `pow`; the paths of
  `print_number` for anything but a 32-bit integer (lines 133-141) are not modelled, so trees of the round trip have
  32-bit integers only. `DBL_EPSILON` is taken as 0 and the conversion to `int` as truncation.
- Malformed escapes, after which the source reads past the terminator or uses an unset variable: texts with such a literal
  are a value of their own, `IllFormed`, and a precondition excludes them from the routines.
- JsonStrings.DecodeLiteral: takes literals without a malformed escape, for that reason.
- `ep` and `cJSON_GetErrorPtr`, `cJSON_InitHooks`, the `cJSON_Create*` helpers and the wrappers around
  `print_value`.
- Failing allocations while printing, and the deletion of the temporary texts there; the tables of entries and names are
  sequences of arrays. While parsing and editing any allocation may fail.
- Addresses are never handed out again after `free`; the parser reads its text from a sequence of bytes, with the
  terminator behind it.
- A reference item is not itself edited as a list, and its original is supposed to outlive it when it is printed.
- JsonGrammar.GrammarParses: behind a number no byte that can stand in a number may follow directly, also where the parser
  would stop before it; `JsonAccepted.ParsedIsDerived` and `JsonAccepted.AcceptsExactly` cover those texts.
- JsonPrinter.PrintNumber: models the integer path only, as above.
- JsonPrinter.RenderValue: takes trees whose numbers are on that path.
- JsonRoundTrip.ValueRoundTrip: its trees have no NULL strings or names, which print as nothing at all and do not parse.

Queue and sessions

- MessageQueue.MessageQueue.SendMessage: takes valid queues, which excludes a capacity of 0; the source would store outside
  pAlloc and divide by zero. NULL queues are not modelled.
- Deadlines: a timed wait may expire at any time. Alone, without another thread, it does.
- What a message points at, including the message a full queue overwrites, which the source never frees.
- The destruction of the mutexes and of the queue itself behind the last unlock of Destroy.
- Topics, `LinkSendIOResponse`, the log session and the branches under `#if 0`.
- Sessions.SessionTable.RecvIOCtrl: does not model the copying of a fixed number of bytes; the data is handed over as it is.
  What reading before the table yields for a negative session is not modelled, only that it happens.

Media

- What the scanners read behind the frame or stream is part of their input: five readable bytes are a precondition.
- What happens once the decoder stores outside its table, or the repacker reads behind its stream: the model says exactly
  when, and stops there. NULL pointers, failing allocations and the log of the frame routines. The decoder's own NULL
  checks never fail for its callers here.
- NalSplitter.H264DecodeFrameIntended: models the correction of line 74, not the code; `H264DecodeFrame` is the code.
- RtmpRepack.RtmpContext.RtmpSendVideo: models the frame decoder with that correction.
- AdtsSplitter.AacDecodeAdts: reports an endless loop in a result of its own instead of not returning. Bytes are unsigned.
- What the publishing library does with the calls; connecting and deleting its context, and freeing the context when the
  publisher cannot be made.

MQTT

- Sockets, TLS, logging, signals and the contents of the client context, which callbacks free and allocate anew.
- MqttReconnect.MqttInstance.OnDisconnectCallback: does not model the client context being freed and allocated anew.
- Whether a ping is due is left open instead of counted.
- In `MqttReconnect` the step system takes `OnEventCallback` as having no effect on its state, and reports are studied on
  calls one after the other.
- PacketIds.Generator.GetPacketId: does not model calls from several threads at once, which the source does not lock.
- The list of subscriptions, `DeleteNode` with it, and the deletion of the instance.
