# Verified models of the hard parts

This project models ten components of the repository in Dafny and proves what they promise. Each component keeps the
form of its source: records that are updated in place are classes, loops are loops with invariants, buffers are arrays;
beside them stand the functions they are proved against, and the lemmas about these functions.

- **XML writer** (`c/genx/genx.c`; `Bytes`, `Status`, `Utf8`, `Escape`, `Tables`, `Stack`, `Events`, `WriterState`,
  `Scoping`, `Requests`, `Scenes`, `Failures`, `Writer`, `WriterRuns`, `Mishaps`). A writer is a class with sorted
  tables, a flat stack of elements, separators and pairs of namespace and declaration, and cached fields in every
  namespace. `Writer.Valid` says that the cached fields shadow the stack: `declCount` counts the open declarations of
  the namespace and `declaration` is the innermost one. `Scenes` gives, as functions on the stack and the cached fields,
  what every call does to them. The main theorem is `WriterRuns.Run`: a reference recogniser (`Events.IsDocument`), a
  reference scoping of prefixes (`Events.Scopes`) and a reference reading of the calls (`WriterRuns.ToldAll`) are met by
  every run of successful calls, in any order and of any length.
- **Symmetric coroutines** (`lua/coro.lua`; `Coro`). Thread bodies are arbitrary programs. Every call keeps the module
  safe, and the fragment of create, resume, yield and return does what a stack of asymmetric coroutines does
  (section 2.11 of the Lua 5.1 manual).
- **SHA-256, SHA-512 and MD5** (`c/sha2/sha2.c`, `c/md5/md5.c`; `Words`, `Sha2`, `Md5`). The in-place word ring and the
  register-renaming rounds compute the full-schedule compression, and updates in any pieces give the hash of the padded
  message (FIPS 180-4, RFC 1321).
- **JavaScript minifier** (`c/jsmin/jsmin.c`; `Jsmin`). The two-character state machine with its fall-through actions
  is proved to be what `Jsmin.Minified` defines without any lookahead: a sequence of tokens whose gaps are replaced.
- **CSV reader** (`lua/csv.lua`; `Csv`). Reading block by block gives the records of the whole text, for every block
  size, and quoted records are read back.
- **Binary heap** (`lua/heap.lua`; `Heap`). Order, contents and stored positions, with the exact condition under which
  popping from the middle keeps the order.
- **Template parser** (`www/mustache.js`; `Mustache`). Spans tile the template, exactly the blanks of lines with nothing
  but block tags go, and sections hold what is between their tags.
- **Row decoder for RLE4 bitmaps** (`lua/bmp.lua`; `Rle4`). Pixels come out in order whatever the parity of packets.
- **Base64** (`lua/base64.lua`; `Base64`). Decoding inverts encoding, and the exact line lengths that the encoder can
  serve.

`Options` and `Division` are shared helpers.

Where the code and what is said about it differ, the model follows the code:

- An attribute name that merely begins with `xmlns` is ordered as a declaration, which is not the order of Canonical
  XML 1.0 (`Tables.MisclassedExample`, `Tables.MisclassedBeforeDeclaration`). `Tables.OrderIsCanonicalIff` says for any
  two names, and `Events.TagsAreCanonicalIff` for any start tag, when it is.
- `writeStartTag` tests the cached `declaration` of an attribute's namespace only if that is a baroque one. Without an
  open declaration, on an element in no namespace, it may follow a null pointer (`Mishaps.NeverDeclared`) or read past
  the end of the name `xmlns` (`Mishaps.StaleDeclaration`); the latter also happens with an open declaration of the
  empty prefix (`Mishaps.OwnDeclaration`). The model returns the statuses `NullDeclaration` and `ReadPastName` there;
  `WriteStartTag` says which attributes are the cause (`Failures.Unprintable`, `Failures.Outcome`), and plain use never
  comes to this.
- When the pre-wired xml namespace is declared again, the end tag of an element outside of that declaration can have
  another prefix than its start tag (`Mishaps.XmlDeclaredAgain`); `EndElement` says exactly when (`Scenes.XmlIsStale`).
- `pop(i)` of the heap moves the last value down only; `Heaps.PopBreaksOrder` gives a heap that this breaks, and the
  contract of `Heaps.Heap.Pop` says exactly when it does not. `replace` stores a position only when a swap happens
  (`Heaps.PlacedWithoutIndex`); its contract says exactly when the positions are right. Nor does it clear the position
  of the element that it displaces, so that `find` still finds this element and `remove` takes out another one
  (`Heaps.DisplacedIsFound`, `Heaps.DisplacedIsRemoved`); `Heaps.Heap.Find` says exactly when the position is right.
- The minifier's notion of a letter includes characters outside ASCII, but where `char` is signed they become spaces
  (`Jsmin.NotAscii`). A line end before a division sign can disappear, after which the sign reads as the start of a
  regular expression (`Jsmin.DivisionsBecomeRegexp`); `Jsmin.SameTokens` says that this is the only way in which the
  tokens of the output differ.
- A base64 line length that is no multiple of four can fail the encoder's final assertion
  (`Base64.EncodeOnShortLines`); `Base64.EncodeToBuffer` says exactly when.
- The row decoder writes one octet past its row and looks at the next one, which is one more than is spare, exactly if a
  packet with an odd start fills the row with an odd number of pixels (`Rle4.Decoder.ReadRow`, `Rle4.OverrunExample`).
- With an empty opening tag, which only a caller can give, the template is read up to its first character that is no
  blank at most (`Mustache.EmptyOpening`, `Mustache.EmptyOpeningExample`).

## Model

| member | source | states |
|---|---|---|
| Utf8.ScalarOfEncode | c/genx/genx.c:388-476 | decoding inverts encoding for every scalar value, whatever follows |
| Utf8.EncodeOfScalar | c/genx/genx.c:388-476 | encoding inverts decoding: no scalar value has a second encoding |
| Utf8.HasCharIffEncoding | c/genx/genx.c:388-476 | what the table of section 4 of RFC 3629 admits is exactly what starts with the encoding of a scalar value |
| Utf8.NextUnicodeChar | c/genx/genx.c:388-476 | the character read is the one encoded there, or -1 exactly if there is none; reading goes on behind it or behind the malformed stretch, and never passes the terminator |
| Utf8.IsTextIffEncoded | c/genx/genx.c:679-691 | exactly the encodings of sequences of XML characters are texts |
| Utf8.CheckText | c/genx/genx.c:679-691 | the status is that of the first thing wrong with the text |
| Utf8.ScrubbedIsText | c/genx/genx.c:696-723 | scrubbed text passes the check and is never longer than the input |
| Utf8.ScrubChangesIff | c/genx/genx.c:696-723 | the count is zero exactly when the input was a text, and exactly then scrubbing changes nothing |
| Utf8.ScrubText | c/genx/genx.c:696-723 | whether the output has an array of its own or is the input's, it ends up with the scrubbed text and its terminator, and the count is that of the stretches removed |
| Utf8.CharToUtf8 | c/genx/genx.c:1741-1764 | the masks and shifts give the UTF-8 encoding of the character |
| Escape.ResolveEscaped | c/genx/genx.c:1619-1656 | resolving the references of escaped text or values gives back the input (section 2.3 of Canonical XML 1.0) |
| Escape.EscapedHasNoSpecial | c/genx/genx.c:1619-1656 | nothing that needs escaping survives, apart from the ampersand of the references |
| Escape.AddChar | c/genx/genx.c:1619-1656 | sent octets and the stretch still waiting together are the escape of what has been read |
| Escape.SendText | c/genx/genx.c:1661-1686 | on success the chunks that are sent concatenate to the character-by-character escape of the text |
| Escape.Collector.Grow | c/genx/genx.c:180-193 | more room, and what was collected is kept |
| Escape.Collector.Piece | c/genx/genx.c:216-216 | a piece is appended, growing first if needed, so that the buffer is never overrun |
| Escape.Collector.End | c/genx/genx.c:199-202 | the terminator fits behind what was collected |
| Escape.CollectValue | c/genx/genx.c:1436-1481 | on success the collector holds the escape of the value, otherwise the status is that of the first thing wrong |
| Tables.PointerList.CheckExpand | c/genx/genx.c:236-257 | there is room for one more, and the contents are the same |
| Tables.PointerList.Append | c/genx/genx.c:259-269 | the contents with the new pointer at the end |
| Tables.PointerList.Insert | c/genx/genx.c:271-284 | shuffling up in place puts the pointer at its index and keeps the others in order |
| Tables.OrderIsKeyOrder | c/genx/genx.c:948-971 | comparing records, whose namespaces are interned, is comparing class, namespace name and local name |
| Tables.KeyOrderTransitive | c/genx/genx.c:948-971 | this order is transitive |
| Tables.KeyOrderIsCanonical | c/genx/genx.c:948-971 | apart from misclassed names it is the order of section 2.2 of Canonical XML 1.0 |
| Tables.MisclassedOrder | c/genx/genx.c:948-1052 | a misclassed attribute is put before every plain one, which is right exactly if its name comes first |
| Tables.OrderIsCanonicalIff | c/genx/genx.c:948-971 | any two different names are in the canonical order if and only if neither is a misclassed one before a plain one with a smaller name, or before a declaration that is larger |
| Tables.MisclassedExample | c/genx/genx.c:948-1052 | concrete names for which the order is not the canonical one |
| Tables.MisclassedBeforeDeclaration | c/genx/genx.c:948-1052 | concrete names, one of them a proper declaration, for which it is not |
| Tables.SearchPrefix | c/genx/genx.c:332-377 | the binary search finds the prefix exactly if the table has it, and else the place that keeps the table sorted |
| Tables.SearchAttribute | c/genx/genx.c:977-1052 | the binary search finds the attribute exactly if the table has it, and else the place that keeps the table strictly increasing |
| Tables.InsertKeepsKeysSorted | c/genx/genx.c:271-284 | inserting at such a place keeps the table strictly increasing |
| ElementStack.ReadElement | c/genx/genx.c:1327-1371 | what a downward scan of the flat stack reads at a separator is the element of the innermost remaining frame |
| ElementStack.ReadBinding | c/genx/genx.c:1327-1371 | what it reads above a separator is the innermost remaining declaration of that frame |
| ElementStack.IsInEffect | c/genx/genx.c:1324-1372 | the scan answers whether the innermost declaration that concerns the namespace or the prefix is this very one |
| ElementStack.IsOnThisElement | c/genx/genx.c:1374-1391 | the scan answers whether the namespace is declared on the top element, and else stops at this element |
| ElementStack.FindDefault | c/genx/genx.c:1191-1222 | the scan finds the innermost default declaration, if there is one |
| ElementStack.FindDeclaration | c/genx/genx.c:1562-1583 | the scan finds the innermost declaration of a namespace that is left |
| ElementStack.PeekElement | c/genx/genx.c:1535-1537 | the scan finds the element on top |
| ElementStack.LastConcerningCounts | c/genx/genx.c:1317-1372 | why the shortcut by the count is right: a declaration in effect is counted, and if any is counted one that concerns the namespace is found |
| Events.CheckedIsBalanced | c/genx/genx.c:1139-1186 | what the recogniser accepts has as many start tags as end tags, plus those still open |
| Events.TagIsCanonicalIff | c/genx/genx.c:1163-1183 | attributes printed in the writer's order are in that of section 2.2 of Canonical XML 1.0 if and only if no misclassed name is out of place |
| Events.TagsAreCanonicalIff | c/genx/genx.c:1163-1183 | so it is for every start tag of what the recogniser accepts |
| WriterState.AttributeInserted | c/genx/genx.c:977-1052 | a new attribute at its place keeps all registries in order |
| WriterState.CachesOkPush | c/genx/genx.c:1402-1411 | pushing a declaration and setting the two fields keeps the cached fields of its namespace a shadow of the stack |
| WriterState.CachesOkPushOther | c/genx/genx.c:1402-1411 | pushing a declaration does not disturb the cached fields of any other namespace |
| WriterState.CachesOkPop | c/genx/genx.c:1551-1590 | undoing the innermost declaration, with a search only for a baroque namespace, keeps the cached fields a shadow of the stack |
| WriterState.CachedPrefix | c/genx/genx.c:1155-1160 | the prefix printed from the cached field is the one given by the declarations in effect |
| WriterState.PrintedInOrder | c/genx/genx.c:1163-1183 | a start tag prints its attributes in strictly increasing order |
| WriterState.DeclaredAfterwards | c/genx/genx.c:1144-1152 | ignoring the status of the attempt is right: the namespace of the element is declared afterwards, whether it fails or not |
| WriterState.CheckStartTag | c/genx/genx.c:1139-1186 | a start tag named by the declarations in effect keeps the document in order |
| WriterState.CheckEndTag | c/genx/genx.c:1530-1546 | an end tag named in the same way closes the innermost element under its own name |
| WriterState.CheckOtherEndTag | c/genx/genx.c:1530-1546 | an end tag named otherwise is refused for good |
| WriterState.CheckName | c/genx/genx.c:741-758 | a name passes exactly if it is one; otherwise the status says that it is a bad name or malformed UTF-8 |
| WriterState.CheckComment | c/genx/genx.c:1789-1815 | a comment passes exactly if its text is one for XML, without a hyphen at either end |
| Scoping.ScopeIsOneToOne | c/genx/genx.c:1299-1412 | in plain use two declarations of one scope agree on the prefix exactly if they agree on the namespace name |
| Scoping.InnerIsNew | c/genx/genx.c:1317-1323 | in plain use an inner declaration shares neither prefix nor namespace with an outer one |
| Scoping.DeclarationStands | c/genx/genx.c:1155-1160 | in plain use the cached declaration gives a prefix that stands for the namespace where it is printed |
| Scoping.PlainTagIsScoped | c/genx/genx.c:1139-1186 | in plain use every start tag is scoped as section 6.1 of Namespaces in XML 1.0 asks, and no namespace is declared twice along a path |
| Scoping.StaysInStep | c/genx/genx.c:1402-1412 | while a start tag is gathered, its provided declarations and those on the stack stay the same |
| Scoping.PlainFate | c/genx/genx.c:1299-1412 | in plain use an attempt to declare a namespace leaves it declared, and pushes a declaration only where there was none |
| Scoping.ScopedEndTag | c/genx/genx.c:1548-1592 | ending an element brings the scopes back to those of the elements still open |
| Requests.PrintedAreGathered | c/genx/genx.c:1163-1183 | a start tag prints exactly the attributes that were given |
| Requests.GatheredOneMore | c/genx/genx.c:1430-1491 | one more attribute is what its call adds to what the caller asked for |
| Scenes.NamePrefixIs | c/genx/genx.c:1540-1544 | the prefix printed from the cached field is that of the declarations in effect if and only if it is not the xml namespace, without a declaration on the stack, with a field left from another prefix |
| Failures.TriedOneMore | c/genx/genx.c:1483-1485 | ignoring the status of the attempt leaves the namespace of the attribute declared, but for the empty prefix on an element in no namespace |
| Failures.AttemptDeclares | c/genx/genx.c:1317-1411 | an attempt after which the namespace has no open declaration has changed nothing, and was one to give the empty prefix to an element in no namespace |
| Failures.FailureCause | c/genx/genx.c:1163-1178 | what the cached declaration comes to when an attribute is printed, from the declarations in effect, the default prefix and the namespace of the element |
| Failures.FirstFailureExplained | c/genx/genx.c:1163-1178 | the loop over the attributes succeeds if and only if none of them is unprintable, and otherwise fails with the reason of the first one |
| GenxWriter.Writer.constructor | c/genx/genx.c:511-590 | a new writer is valid, with the xml namespace declared and counted |
| GenxWriter.Writer.StorePrefix | c/genx/genx.c:332-377 | a prefix is interned under its xmlns: name, or refused as a duplicate |
| GenxWriter.Writer.DeclareAnyAttribute | c/genx/genx.c:977-1052 | a repeated declaration returns the existing record; a new one is put at its place |
| GenxWriter.Writer.DeclareNamespace | c/genx/genx.c:779-881 | on success the namespace is the one record with that name, new or looked up, under the default prefix asked for or the next one made up, and no other record has changed; with proper arguments and a free prefix it succeeds |
| GenxWriter.Writer.DeclareElement | c/genx/genx.c:900-940 | the element with that namespace and name is looked up, and appended exactly if there is none; a bad name changes nothing |
| GenxWriter.Writer.DeclareAttribute | c/genx/genx.c:1057-1068 | the attribute with that class, namespace and name is looked up or new; the start tag that is being gathered does not change |
| GenxWriter.Writer.AddNamespace | c/genx/genx.c:1299-1412 | every branch keeps the writer valid; the fate of the attempt, the one declaration it pushes and the cached fields after it are those of a decision on the declarations in effect |
| GenxWriter.Writer.AddAttribute | c/genx/genx.c:1430-1491 | a proper value is stored escaped and the attribute provided, a second time with an error; what was gathered grows by just this attribute; an improper value changes no declaration |
| GenxWriter.Writer.UnsetDefault | c/genx/genx.c:1191-1235 | the signal is pushed, and the empty declaration provided, exactly if the innermost default declaration is one of a namespace; only this namespace becomes baroque |
| GenxWriter.Writer.SendAttributes | c/genx/genx.c:1163-1183 | the provided attributes are sent, or the status is that of the first one that cannot be |
| GenxWriter.Writer.WriteStartTag | c/genx/genx.c:1139-1186 | on success what is sent is the rendering of one start tag that says what was asked for, is named by the declarations in effect and, in plain use, is scoped; it succeeds if and only if no gathered attribute is unprintable, and otherwise the first one that is decides the status; in plain use it always does |
| GenxWriter.Writer.StartDocument | c/genx/genx.c:1119-1128 | a document starts with nothing open and nothing said |
| GenxWriter.Writer.StartElement | c/genx/genx.c:1252-1294 | the gathered tag is written, or its failure returned, and the new element becomes the top frame with no declarations and no attributes |
| GenxWriter.Writer.AddAttributeCall | c/genx/genx.c:1498-1509 | the call asks for one more attribute, or fails in the wrong place, without a value, with an improper one, or a second time; its namespace counts as tried |
| GenxWriter.Writer.AddNamespaceCall | c/genx/genx.c:1417-1423 | declaring a namespace keeps the document in order, and under the default prefix the scoping; it is refused outside a start tag |
| GenxWriter.Writer.UnsetDefaultNamespace | c/genx/genx.c:1242-1250 | clearing the default namespace keeps the document in order and the scoping, and is refused outside a start tag |
| GenxWriter.Writer.Unbind | c/genx/genx.c:1551-1590 | one declaration undone, the cached fields of its namespace are again those of the stack |
| GenxWriter.Writer.PopBindings | c/genx/genx.c:1548-1590 | the declarations of the element are undone one by one, the innermost first, each as the function on stack and cached fields says |
| GenxWriter.Writer.SendEndTag | c/genx/genx.c:1535-1546 | the end tag printed from the cached field has the prefix that the declarations in effect give the element, if and only if that field is not a stale one of the xml namespace |
| GenxWriter.Writer.EndElement | c/genx/genx.c:1511-1607 | the innermost element is closed and its declarations are undone; the document stays in order if and only if the cached field was not a stale one of the xml namespace, and is refused for good otherwise |
| GenxWriter.Writer.AddText | c/genx/genx.c:1661-1686 | text is added to the innermost element, escaped |
| GenxWriter.Writer.AddCharacter | c/genx/genx.c:1722-1772 | one character is added, escaped |
| GenxWriter.Writer.AddComment | c/genx/genx.c:1789-1829 | a comment is written, with a line of its own outside the root element |
| GenxWriter.Writer.EndDocument | c/genx/genx.c:1774-1787 | a document ends exactly when its root element has been closed |
| WriterRuns.PlainCallIsPlain | c/genx/genx.c:779-881 | what uses default prefixes only, judged by the calls alone, does so by the writer's records |
| WriterRuns.Perform | c/genx/genx.c:511-1829 | every successful call adds what it asks for and keeps document, scoping and records in order |
| WriterRuns.Run | c/genx/genx.c:511-1829 | if all calls succeed and the last one ends the document: the elements, attributes, texts and comments written are those asked for; unless the xml namespace was rebound, what was sent is the rendering of one balanced document; in plain use every prefix stands for its namespace, and no call that finishes a start tag follows a null pointer or reads past a name |
| Mishaps.NeverDeclared | c/genx/genx.c:1163-1178 | a run whose last call makes the source follow a null pointer |
| Mishaps.StaleDeclaration | c/genx/genx.c:1163-1178 | a run whose last call makes the source read past a name that a closed element has left in the cached field |
| Mishaps.OwnDeclaration | c/genx/genx.c:1163-1178 | a run whose last call does so with the declaration of the element itself |
| Mishaps.XmlDeclaredAgain | c/genx/genx.c:1511-1607 | a run of successful calls whose last end tag does not match |
| Coroutines.EndingIsResumable | lua/coro.lua:162-190 | from wherever a thread ends, the chain of callers leads to a thread that can be resumed |
| Coroutines.GoKeepsDead | lua/coro.lua:214-223 | the trampoline never brings a dead thread back |
| Coroutines.AfterGo | lua/coro.lua:214-223 | the trampoline ends in a safe state with exactly one thread having received one input |
| Coroutines.AfterTransfer | lua/coro.lua:224-241 | a transfer keeps safety and delivers its values to one thread |
| Coroutines.AfterResume | lua/coro.lua:243-257 | a resume keeps safety and delivers its values to one thread, although the caller is noted down before the thread may be found dead |
| Coroutines.AfterYield | lua/coro.lua:258-263 | a yield keeps safety and delivers its values to one thread |
| Coroutines.AfterCalls | lua/coro.lua:144-263 | every reachable state is safe: only unstarted or suspended threads are resumed, the current thread is the running one, and callers of live threads wait in their resume |
| Coroutines.YieldReachesResumer | lua/coro.lua:258-263 | a yield gives its values to the resume of whoever has resumed the thread |
| Coroutines.ErrorReachesMain | lua/coro.lua:170-189 | an error in a thread that was transferred into comes up in the main thread |
| Coroutines.FinishReachesTarget | lua/coro.lua:162-189 | a thread that ends by naming a suspended thread hands its values to that thread |
| Coroutines.Coro.Finish | lua/coro.lua:170-189 | ending a thread in place changes the map of callers and picks the next thread as the step function says |
| Coroutines.Coro.Go | lua/coro.lua:214-223 | the trampoline, as a loop over native resumes, reaches the state that the step function gives |
| Coroutines.Coro.TransferWith | lua/coro.lua:224-235 | a transfer, from the main thread or another one, reaches the state that the step function gives |
| Coroutines.Coro.ResumeWith | lua/coro.lua:247-253 | a resume reaches the state that the step function gives |
| Coroutines.Coro.YieldValues | lua/coro.lua:258-263 | a yield reaches the state that the step function gives |
| Coroutines.Coro.Step | lua/coro.lua:144-263 | one call of the running body, whichever it is, is one step |
| Coroutines.Run | lua/coro.lua:144-263 | any program may run for any number of calls: the module stays safe and its state is that of the step function |
| AsymmetricCoroutines.PushSimulates | lua/coro.lua:247-257 | a resume of a suspended thread is a push |
| AsymmetricCoroutines.YieldSimulates | lua/coro.lua:258-263 | a yield is a pop that leaves the thread suspended |
| AsymmetricCoroutines.FinishSimulates | lua/coro.lua:170-189 | a return is a pop that leaves the thread dead |
| AsymmetricCoroutines.StepSimulates | lua/coro.lua:191-263 | one step of the fragment on the map of callers is one step on the stack |
| AsymmetricCoroutines.Simulates | lua/coro.lua:191-263 | a program that only creates, resumes suspended coroutines, yields and returns receives the same values in the same order of control as from a stack of asymmetric coroutines |
| Words.LittleEndianRoundTrip | c/sha2/sha2.c:130-145 | octets of a word in host order give the word back |
| Words.Reverse32Swaps | c/sha2/sha2.c:130-134 | the shifts and masks on 32 bits reverse the octets |
| Words.Reverse64Swaps | c/sha2/sha2.c:135-145 | the shifts and masks on 64 bits reverse the octets |
| Words.SwappedLoad | c/sha2/sha2.c:362-370 | a word loaded in host order and swapped is its big-endian value |
| Words.SwappedStore | c/sha2/sha2.c:607-620 | a swapped word stored in host order leaves its big-endian octets |
| Sha2.RingAdvances | c/sha2/sha2.c:371-380 | overwriting one word of the ring moves it one word along the schedule |
| Sha2.RingGives | c/sha2/sha2.c:371-380 | the four words read from the ring are those the schedule asks for |
| Sha2.PaddingFills | c/sha2/sha2.c:568-606 | the padded message consists of whole blocks, and with fewer zeros it would not |
| Sha2.Context.CopyWord | c/sha2/sha2.c:464-470 | copying a word with its octets exchanged is right even where source and ring are the same buffer |
| Sha2.Context.ExpandWord | c/sha2/sha2.c:487-500 | the word sixteen rounds back becomes the next word of the schedule |
| Sha2.Context.TransformLooped | c/sha2/sha2.c:440-516 | the state becomes the compression of sections 6.2.2 and 6.4.2 of FIPS 180-4, also when the data is the buffer itself |
| Sha2.Context.TransformUnrolled | c/sha2/sha2.c:382-436 | the rounds that rename the registers instead of moving them compute the same compression, also on the buffer itself |
| Sha2.Context.Update | c/sha2/sha2.c:520-566 | whole blocks are processed, the rest waits at the start of the buffer, and the count is the length in bits |
| Sha2.Context.Final | c/sha2/sha2.c:568-629 | the digest is the hash of the message |
| Sha2.HashInPieces | c/sha2/sha2.c:520-958 | however a message is split over updates, the result is the hash of its padded form (sections 5.1.1 and 5.1.2 of FIPS 180-4) |
| Md5.CountsMore | c/md5/md5.c:210-222 | the two counters with their carry hold the low 61 bits of the length in octets |
| Md5.CountedBits | c/md5/md5.c:268-278 | shifted, they are the low 64 bits of the length in bits |
| Md5.PaddingFills | c/md5/md5.c:244-267 | the padded message consists of whole blocks |
| Md5.Context.Body | c/md5/md5.c:92-197 | the do-while loop takes in all blocks it is given |
| Md5.Context.Update | c/md5/md5.c:210-242 | what was taken in grows by the data, whatever waited in the buffer |
| Md5.Context.Final | c/md5/md5.c:244-293 | the digest is the hash of the message |
| Md5.HashInPieces | c/md5/md5.c:199-293 | however a message, of any length, is split over updates, the result is the hash of its padded form (sections 3.1 and 3.2 of RFC 1321) |
| Jsmin.Minifier.Fetch | c/jsmin/jsmin.c:82-114 | the loops over comments read the next character outside them, or fail exactly on a comment that does not end |
| Jsmin.Minifier.ScanString | c/jsmin/jsmin.c:140-156 | a string is copied whole but for its last quote, which waits in `a` |
| Jsmin.Minifier.ScanRegexp | c/jsmin/jsmin.c:171-202 | a regular expression is copied whole but for its last slash |
| Jsmin.Decided | c/jsmin/jsmin.c:232-282 | which action the main loop takes is what the separator between two tokens requires |
| Jsmin.Minifier.TakeB | c/jsmin/jsmin.c:138-157 | the second action moves a token, or a blank, from `b` to `a` without a change of what will have been written |
| Jsmin.Minifier.FetchB | c/jsmin/jsmin.c:158-204 | the third action reads the next token's first character, with any regular expressions it recognises, without a change of what will have been written |
| Jsmin.Minifier.Act | c/jsmin/jsmin.c:126-205 | each of the three actions, falling through, keeps the output that is to come |
| Jsmin.Minify | c/jsmin/jsmin.c:212-287 | the output, or the error, is that of the definition without lookahead, for every input; and the loop ends |
| Jsmin.OnlyGapsChange | c/jsmin/jsmin.c:208-287 | the output is the tokens of the input with other gaps |
| Jsmin.Tiled | c/jsmin/jsmin.c:82-287 | what is accepted is tiled, up to its end, by blanks, by comments to the end of their lines or to the first star and slash, and by the tokens |
| Jsmin.KeepsCharacters | c/jsmin/jsmin.c:82-287 | apart from blanks the output has just the characters of those pieces of the input that are no comments, in order |
| Jsmin.NothingToSkip | c/jsmin/jsmin.c:82-114 | in a text without slashes and quotes nothing but blanks is dropped by the tokens |
| Jsmin.KeepsApart | c/jsmin/jsmin.c:126-287 | tokens that would merge stay apart if they were apart, nothing is put between others but before a regular expression, and a line end stays one exactly where it may matter |
| Jsmin.SameTokens | c/jsmin/jsmin.c:126-287 | the output is read as the same tokens again if and only if no division sign followed one of } + - over a line end |
| Jsmin.MinifiedTwice | c/jsmin/jsmin.c:126-287 | if no division sign followed one of } + - over a line end, minifying the output changes nothing |
| Jsmin.DivisionsBecomeRegexp | c/jsmin/jsmin.c:126-287 | an accepted text with two divisions whose output has a regular expression instead |
| Jsmin.NotAscii | c/jsmin/jsmin.c:48-71 | what becomes of characters outside ASCII with signed and with unsigned char |
| Csv.FindInPrefix | lua/csv.lua:229-251 | a match that does not touch the end of what has been read stays the same when more is read |
| Csv.FindInSuffix | lua/csv.lua:229-251 | positions do not depend on what was cut off before them |
| Csv.FileBuffer.Truncate | lua/csv.lua:218-227 | cutting off what has been read keeps the window a window of the file |
| Csv.FileBuffer.Find | lua/csv.lua:229-251 | finding in the window is finding in the whole file |
| Csv.FileBuffer.Extend | lua/csv.lua:253-264 | the window reaches the position, or the end of the file |
| Csv.FileBuffer.Sub | lua/csv.lua:266-272 | a substring of the window is one of the whole file |
| Csv.QuotedFieldRead | lua/csv.lua:400-440 | a quoted field is read back with what ends it |
| Csv.ReadsBack | lua/csv.lua:348-491 | records without carriage returns, none of them a single empty field, are read back from their fully quoted rendering (section 2 of RFC 4180) |
| Csv.Reader.FindClosingQuote | lua/csv.lua:402-420 | the loop over pairs of quotes finds the closing one, or that there is none |
| Csv.Reader.ReadAll | lua/csv.lua:396-491 | the iterator gives the records of the parse |
| Csv.ReadFile | lua/csv.lua:208-491 | whatever the size of the blocks, a file gives the records of its whole text |
| Heaps.RootIsLeast | lua/heap.lua:123-168 | in a heap nothing is less than the root |
| Heaps.Heap.MoveUp | lua/heap.lua:125-133 | a value that may be too small for its place is moved up; order, contents and stored positions are right then |
| Heaps.Heap.MoveDown | lua/heap.lua:135-148 | a value that may be too large for its place is moved down; order, contents and stored positions are right then |
| Heaps.Heap.Push | lua/heap.lua:150-153 | the heap has one more element and stays a heap |
| Heaps.Heap.Pop | lua/heap.lua:328-333 | the element is taken out with its position cleared; the rest is a heap if and only if the last element is not less than the parent of its new place; the root is a least element |
| Heaps.Heap.Rebalance | lua/heap.lua:161-165 | after a change at one place the heap is one again |
| Heaps.Heap.Replace | lua/heap.lua:337-342 | the heap holds the new element for the old one, which keeps its position; the stored positions in the heap are right exactly if the new element was moved or had its position already |
| Heaps.Heap.Find | lua/heap.lua:174-196 | where elements in the heap know their positions, the stored position is what the linear scan finds if and only if the element is in the heap or stores none |
| Heaps.Heap.Remove | lua/heap.lua:343-351 | what is at the position found is taken out; that is the element itself, or nothing, if it is in the heap or stores no position |
| Heaps.PlacedWithoutIndex | lua/heap.lua:337-342 | an element that replaces another without being moved and does not know its position |
| Heaps.DisplacedIsFound | lua/heap.lua:174-342 | an element that has been replaced and is found in the place of another |
| Heaps.DisplacedIsRemoved | lua/heap.lua:174-351 | to remove such an element takes out another one |
| Heaps.Heap.Drain | lua/heap.lua:328-333 | popping until nothing is left gives all elements, none less than an earlier one |
| Heaps.PopBreaksOrder | lua/heap.lua:155-159 | a heap that popping from the middle turns into none |
| Heaps.RemainingOrder | lua/heap.lua:155-159 | moving the last element down is enough unless it is less than the parent of its new place |
| Mustache.Scanner.Scan | www/mustache.js:336-348 | a match at the beginning is taken off the rest of the template, and nothing otherwise |
| Mustache.Scanner.ScanUntil | www/mustache.js:354-373 | everything before the first match is taken off, or all of the rest |
| Mustache.TokensTile | www/mustache.js:113-253 | for every opening tag that is not empty the tokens tile the template from start to end, and text tokens are what is there |
| Mustache.OpeningIsNotEmpty | www/mustache.js:140-146 | no delimiter tag sets an empty opening tag |
| Mustache.EmptyOpening | www/mustache.js:140-177 | what a caller's empty opening tag does: nothing is read before a character that is no blank, and blanks open a tag |
| Mustache.EmptyOpeningExample | www/mustache.js:140-177 | a template of which nothing is read |
| Mustache.Parser.StripSpace | www/mustache.js:127-138 | deleting through the list of indices strips the line that was read, and no other |
| Mustache.BlanksAreStripped | www/mustache.js:125-138 | a token is stripped if and only if it is a blank in a line with a tag and without text, names or unescaped values |
| Mustache.ReadTokens | www/mustache.js:152-252 | the loop gives the tokens, stripped line by line, or the error of the definition |
| Mustache.SquashTokens | www/mustache.js:259-278 | text that follows text is joined to it in place |
| Mustache.TextIsSource | www/mustache.js:259-278 | only text that was together in the template is joined, whatever was stripped |
| Mustache.ParsedIsSource | www/mustache.js:113-278 | the parsed tokens are in order, each text is what the template has at its span, no text is next to text, and what is in no token is a blank |
| Mustache.SquashedNest | www/mustache.js:125-278 | stripping and joining lose no tag |
| Mustache.TokensNest | www/mustache.js:221-252 | in what the parser accepts every section is closed |
| Mustache.StackIsOpen | www/mustache.js:286-313 | so the stack is never empty at a closing tag, and its top has the tag's name |
| Mustache.NestTokens | www/mustache.js:286-313 | the nodes, updated in place, have just what is directly inside them as children and the start of their closing tag as end |
| Mustache.SectionIsClosed | www/mustache.js:286-313 | every section has one closing tag, named like it, and is open exactly up to there |
| Mustache.SectionSpan | www/mustache.js:286-313 | the span of a section holds exactly the tokens that are inside it at any depth |
| Mustache.ParseTemplate | www/mustache.js:113-253 | the result is the tree of the parsed tokens, or the first error |
| Rle4.PacketsDecoded | lua/bmp.lua:447-479 | packets that fill a row decode to their pixels in order, whatever the parity of each start and length |
| Rle4.ShiftedPixel | lua/bmp.lua:415-422 | shifting back by half an octet gives every pixel the value of the one behind it, from an odd one on |
| Rle4.Decoder.ShiftBack | lua/bmp.lua:415-422 | the loop over octets shifts in place by half an octet exactly if the packet starts at an odd pixel |
| Rle4.Decoder.ReadPixels | lua/bmp.lua:424-434 | the pixels of an absolute packet come to their place |
| Rle4.Decoder.FillPixels | lua/bmp.lua:436-444 | the pixels of a repeat packet come to their place |
| Rle4.Decoder.ReadRow | lua/bmp.lua:411-479 | a row that ends with its code holds the pixels of its packets; it was written past its end, by one octet, and looked at one further, if and only if a packet with an odd start filled it with an odd number of pixels |
| Rle4.HowFar | lua/bmp.lua:415-444 | how far a packet is written, from the parities of its start and length |
| Rle4.OverrunExample | lua/bmp.lua:411-479 | a row of four pixels that is decoded, and written past its end |
| Base64.LinesFill | lua/base64.lua:39-44 | the size of the output is the computed one |
| Base64.PairsAreGroup | lua/base64.lua:30-63 | two entries of the pair table are the group of section 4 of RFC 4648 |
| Base64.MultiplesOfFourFit | lua/base64.lua:37-116 | line lengths that are multiples of four always come out right |
| Base64.EncodeToBuffer | lua/base64.lua:37-116 | the final assertion holds if and only if there is one line, or pairs meet all line ends and the padded group fits; then the buffer holds the encoding of section 4 of RFC 4648 in lines |
| Base64.EncodeOnShortLines | lua/base64.lua:37-116 | lengths of input and line for which the assertion fails |
| Base64.DecodeToBuffer | lua/base64.lua:132-184 | the skipping decoder gives the octets of the groups up to the first padded one, or nothing exactly if the number of digits or the padding is wrong |
| Base64.DecodeInvertsEncode | lua/base64.lua:37-184 | decoding inverts encoding for every non-empty input and every line length |

## Left out

- XML writer: failures of allocation and of the sender, output to a file, disposal, error texts, user data, processing
  instructions, the calls with literals and those for bounded and counted text.
- XML writer: the tables of character classes are parameters; a colon as the first character of a name is accepted as
  the code does.
- XML writer: what a recogniser of octets would make of the output. `Events.IsDocument` is about tags and text before
  they are rendered; it does not repeat the check of element names, which are checked where they are declared, and asks
  that attributes differ in class, namespace and name, not in prefix and name.
- XML writer: `Tables.PointerList` is verified by itself; the tables and the stack of the writer are sequences, on which
  the writer does what the contracts of `Append` and `Insert` say of the contents of such a list. The
  value of an attribute is a sequence as well, taken from a collector that is made for the call. Temporary records and
  buffers for names do not appear.
- XML writer: where a prefix is compared with what follows the terminator of the name `xmlns`, the outcome is arbitrary.
- GenxWriter.Writer.DeclareNamespace: after a call that failed on a duplicate prefix nothing is said about the writer,
  which the source leaves half changed; runs end at the first failure.
- WriterRuns.Run: a run ends at the first call that fails; scoping is proved for runs that use default prefixes only,
  other runs are covered as balanced documents, but for those that give the pre-wired xml namespace another prefix
  (`WriterRuns.KeepsXml`), for which only the calls say what happens.
- Coroutines: `wrap`, `safewrap`, the table of live threads, weak references and garbage collection. The handler that is
  called when a thread ends does not raise and only changes what it is given. A thread that is not there is a number out
  of range.
- SHA-2 and MD5: octets are exchanged by the arithmetic swaps that `Words.Reverse32Swaps` and `Words.Reverse64Swaps`
  equate with the macros. The round constants, initial values and logical functions of SHA-2 and the block function of
  MD5 are parameters. SHA-384, digests as text, clearing of the context and the branches for big-endian machines do
  not appear.
  SHA-256 and SHA-512 are one model with two variants.
- Sha2.Context.Final: the model clears the buffer up to the length field only, where the source clears two octets short
  of the whole block before storing the length.
- JavaScript minifier: the growing of the output buffer by the Lua library, and the Lua state.
- CSV reader: guessing of the separator, column maps, headers, byte order marks, line and column numbers for messages,
  limits on the number of records. Files are read in full blocks. The three patterns are given directly.
- Binary heap: the variant over C data.
- Heaps.Heap.Pop: positions outside the heap, where the source loses the last element or fails on an element that is not
  there, are not modelled; nor are they for `Remove` of an element with such a position.
- Template parser: rendering, lambdas, partials with their indentation, and the cache of parsed templates. Regular
  expressions are given directly. Characters are Unicode scalar values where the source counts UTF-16 units.
- Mustache.SquashTokens: works on values; that the source changes the last token in place can be seen nowhere else.
- Row decoder: headers, palettes, other formats, and what a delta code leaves behind.
- Base64: the variant for URLs and buffers given by the caller.
