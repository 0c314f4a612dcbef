# PXF foreign data wrapper: a verified model

This project models the parts of the PXF repository whose correctness is hardest to see from
the code, and proves what they are for. The main part is the query pipeline of the foreign
data wrapper in `fdw/`:

* **Filter push-down** (`FilterSyntax`, `FilterCompiler`, `FilterMeaning`, `FilterCoverage`,
  `FilterWire`, `FilterParser`, `FilterPushdown`). Qualifier trees become a postfix list of shared, mutable
  expression items and then a length-prefixed string, which the server's filter parser reads
  byte by byte into a tree with the column on the left. The tree of a string that is pushed
  has, on every row, the value of SQL's three-valued AND of the qualifiers. The tree shapes for
  which the compiler is right on every subtree, and the leaves that survive the way to the
  server, are characterised exactly.
* **Transfer buffers** (`Transfer`). The upload and download buffers, driven by callbacks in
  any order and of any size, refine FIFO byte streams through compaction, growth and flushes.
* **Fragments and scan** (`Fragments`, `Bridge`, `Headers`, `FragmentResponse`). The JSON
  response of the fragmenter, the dispatch to the segments, the modular work allocation, the
  headers of every request and the read loop. The server sees only the headers, so that what an
  earlier request left in them is part of the model. Across the cluster a fragment is delivered
  exactly once, whole and in order within its segment, if and only if its index plus the
  allocation base is not negative or divides by the segment count, provided no request carries
  leftovers, and exactly when it does is stated, too. The query succeeds if and only if every
  answer is good at its first byte and at its end, and the list of fragments that the server
  writes is received value for value.

The other parts are the cores of vendored libraries:

* **Backtracking parser** (`Backtracking`, `Grammars`). The explicit-stack engine of modgrammar
  yields the ordered list of successes; nested grammars find exactly their parse trees.
* **Property network** (`PropertyNetwork`). Links of suds property objects form a forest with
  one provider for each name, after any run of link and unlink calls.
* **JSON codec** (`JsonStrings`, `JsonCodec`, `JsonDocuments`, `JsonRoutines`). simplejson's escapers,
  Python and C, its scanner, encoder and decoder, the round trip between them, and exactly which
  texts the decoder takes, and for what (sections 2 to 7 of RFC 8259).
* **Ordered dictionary** (`LinkedDict`). A circular doubly linked list beside a key map.

`Decimal` holds decimal printing and reading, which several parts share.

## How the model reads the code

* Objects that the source updates in place are classes (`ExpressionItem`, `ChurlBuffer`,
  `Download`, `Upload`, `FragmentList`, `Requests`, `Scan`, `HeaderList`, `FragmentParser`,
  `Parser`, `Search`, `Network`, `Link`, `KeyList`, `OrderedDict`); loops are loops. Each method is proved against a
  function on values, and the theorems are about those functions.
* Everything outside the code is a parameter. One `curl_multi_perform` is an entry of an
  arbitrary finite script: the bodies (or sizes) of the callbacks it makes, whether the transfer
  still runs, and whether the response is good at that point. A row is an arbitrary function from elementary
  predicates to truth values. The server is an arbitrary function from what it reads in the
  headers to scripts. UTF-8 decoding of a byte string is a parameter.
* Raised errors are result values (`Outcome`, `Option`, a boolean).
* Where the code does not do what its purpose asks for, the model keeps the code, a lemma shows
  an input, and another lemma gives the exact condition: one-argument AND and OR nodes and
  dropped node tags (`FilterMeaning`), NULL constants, by-value arrays, list constants on the
  left and a constant on the left of LIKE (`FilterPushdown`), a negative allocation base
  (`Fragments`), a value between two missing ones and profiles left over (`Headers`), numbers
  taken for an index (`FragmentResponse`), keys that become equal in UTF-16 (`JsonCodec`).

## Model

| member | source | states |
|---|---|---|
| `FilterCompiler.MakeExpressionItemsList` | fdw/pxf_filter.c:304-417 | For every acyclic qualifier list, shared subtrees included, the list of aliased items read node by node is the specified postfix list, and the distinct unprocessed items that carry the caller's address number exactly the visible children |
| `FilterCompiler.CompileBoolExpr` | fdw/pxf_filter.c:341-391 | After the recursive call and the marking loop, a boolean node adds its item once per NOT child or once less than its AND/OR children, and its parent will count it at most once |
| `FilterCompiler.CountChildren` | fdw/pxf_filter.c:356-368 | The loop counts the distinct unprocessed children, however often each is aliased, marks exactly them and leaves every other flag alone |
| `FilterCompiler.AddExtraAndExpressionItems` | fdw/pxf_filter.c:1440-1462 | Appends the given number of references to one AND item, and nothing to an empty list |
| `FilterCompiler.DeleteAll` | fdw/pxf_filter.c:282-289 | The inner deletion loop removes every occurrence of one item, keeps all other members and terminates |
| `FilterCompiler.FreeExpressionItemsList` | fdw/pxf_filter.c:268-291 | Every distinct item of an aliased list is freed, none twice, and the loop ends |
| `FilterMeaning.SoundIffWellShaped` | fdw/pxf_filter.c:304-417 | A tree and all its subtrees push exactly their SQL value onto any stack if and only if no tag is dropped, NOT has one argument that is counted, and AND/OR have arguments that are all counted unless there is just one |
| `FilterMeaning.CompiledQualsMeanConjunction` | fdw/pxf_filter.c:304-417 | The list compiled from well-shaped qualifiers, the implicit ANDs included, leaves one more value on any stack: SQL's AND of all the qualifiers |
| `FilterCoverage.MeansConjunctionIffHandled` | fdw/pxf_filter.c:392-396 | For qualifiers of NOT with one argument and AND/OR with two or more, without a repeated leaf, the compiled list leaves the conjunction on every valuation if and only if no node has a tag that the default branch drops |
| `FilterCoverage.SenseAll` | fdw/pxf_filter.c:392-396 | Every leaf of such a list matters: two valuations that differ in it alone give the conjunction different values |
| `FilterMeaning.RunConnective` | fdw/pxf_filter.c:377-383 | k copies of an AND or OR item combine the top k + 1 values |
| `FilterMeaning.NotOverUncountedIsLost` | fdw/pxf_filter.c:370-383 | A NOT over a one-argument AND is dropped, so the list means the opposite |
| `FilterMeaning.OrOverUncountedLeavesTwo` | fdw/pxf_filter.c:370-383 | An OR with a one-argument AND among its arguments leaves two values |
| `FilterMeaning.DroppedQualUnderflows` | fdw/pxf_filter.c:392-414 | A dropped qualifier still counts for the implicit ANDs, and the stack underflows |
| `FilterSyntax.PxfCodeIsRelation` | fdw/pxf_filter.c:57-185 | An operator has a PXF code if and only if the catalog knows it as a comparison of two supported types, and then the code of what it asks |
| `FilterSyntax.ArrayOperatorIsEquality` | fdw/pxf_filter.c:189-244 | The operators that may be pushed with ANY are exactly the equalities of the catalog, except that of truth values |
| `FilterSyntax.TypesAreKnown` | fdw/pxf_filter.c:246-267 | The supported types are the numbers, truth values, texts, times and arrays of the catalog; arrays and truth values are the supported types without a scalar text |
| `FilterSyntax.MirrorExchanges` | server/pxf-api/src/main/java/org/greenplum/pxf/api/filter/FilterParser.java:361-367 | A comparison says the same of two numbers as another says of them exchanged if and only if the other is its mirror |
| `FilterWire.LexRenderAll` | fdw/pxf_filter.c:483-769 | Any sequence of operands, lists, operators and connectives, whatever bytes its constants hold, is read back exactly from its text |
| `FilterWire.UniquelyDecodable` | fdw/pxf_filter.c:483-769 | Two token sequences have the same text only if they are equal |
| `FilterWire.ComparisonOutcome` | fdw/pxf_filter.c:777-855 | A comparison is pushed, or raises an error, exactly under the stated conditions on its operator, types, column and constant: an error only for a constant without a text, and behind a system column only if the constant is on the left |
| `FilterWire.ArrayOutcome` | fdw/pxf_filter.c:857-919 | An array comparison is pushed if and only if it is = ANY, not of truth values, between a user column and a constant of known types that can be printed; it raises an error exactly for a constant that cannot, in the order of the checks |
| `FilterWire.ColumnOutcome` | fdw/pxf_filter.c:921-959 | A column alone is pushed if and only if its type is known and it is no system column, a null test for every column of known type, and neither raises an error |
| `FilterWire.ListOutcomeIff` | fdw/pxf_filter.c:483-769 | A list is pushed if and only if all its items are, and raises an error if and only if one does with all before it pushed |
| `FilterWire.ListConstToStr` | fdw/pxf_filter.c:1253-1387 | The loop writes each element with its length, in order; null and by-value arrays write nothing, other types raise an error |
| `FilterWire.SerializeFilterList` | fdw/pxf_filter.c:483-769 | The buffer holds the texts of all items in order, unless an item is rejected or raises, when the first such item decides; an empty text is not pushed |
| `FilterPushdown.ItemTextIsTokens` | fdw/pxf_filter.c:777-959 | A pushed leaf's or connective's text is the rendering of the tokens that say the same, except with a list constant on the left |
| `FilterParser.Parser.ParseDigits` | server/pxf-api/src/main/java/org/greenplum/pxf/api/filter/FilterParser.java:437-463 | The loop takes an optional sign and the longest run of digits |
| `FilterParser.Parser.ParseNumber` | server/pxf-api/src/main/java/org/greenplum/pxf/api/filter/FilterParser.java:406-419 | The number and the text after it, or an error for no digits or a value outside an int |
| `FilterParser.Parser.ParseConstDataType` | server/pxf-api/src/main/java/org/greenplum/pxf/api/filter/FilterParser.java:219-231 | An unsigned identifier of a known type |
| `FilterParser.Parser.ParseData` | server/pxf-api/src/main/java/org/greenplum/pxf/api/filter/FilterParser.java:233-266 | A length and that many bytes of a supported type; every malformed, negative or overlong length is an error |
| `FilterParser.Parser.ParseScalarParameter` | server/pxf-api/src/main/java/org/greenplum/pxf/api/filter/FilterParser.java:281-295 | A scalar constant is read as specified on every text |
| `FilterParser.Parser.ParseListParameter` | server/pxf-api/src/main/java/org/greenplum/pxf/api/filter/FilterParser.java:303-325 | The elements of a list constant in order; running out of text is an error |
| `FilterParser.Parser.ParseComparisonOperator` | server/pxf-api/src/main/java/org/greenplum/pxf/api/filter/FilterParser.java:333-371 | Pops one or two operands, turns a scalar on the left to the right with the transposed operator, and pushes the result, or fails, as specified |
| `FilterParser.Parser.ParseLogicalOperator` | server/pxf-api/src/main/java/org/greenplum/pxf/api/filter/FilterParser.java:379-404 | NOT takes one node, AND and OR two operators |
| `FilterParser.Parser.ParseFilter` | server/pxf-api/src/main/java/org/greenplum/pxf/api/filter/FilterParser.java:158-202 | The index loop terminates and gives the specified tree for every byte string and every stack left from before, and leaves an empty stack on success |
| `FilterParser.TurnKeepsBuilt` | server/pxf-api/src/main/java/org/greenplum/pxf/api/filter/FilterParser.java:158-202 | Every turn of the parser keeps the trees on its stack well built: comparisons over operands, connectives over operators, constants of types that have values and on the left of another constant only |
| `FilterParser.ParsedIsBuilt` | server/pxf-api/src/main/java/org/greenplum/pxf/api/filter/FilterParser.java:158-202 | The tree of any string that is parsed is well built and never a lone operand |
| `FilterPushdown.TextIsApplied` | server/pxf-api/src/main/java/org/greenplum/pxf/api/filter/FilterParser.java:158-202 | The parser does on the text of any tokens within its types and integers, whatever follows them, what the tokens do to its stack one by one |
| `FilterPushdown.RunSimulated` | server/pxf-api/src/main/java/org/greenplum/pxf/api/filter/FilterParser.java:158-202 | The parser's stack of trees simulates the item machine's stack of values on every list of pushed faithful items and every row |
| `FilterPushdown.PushdownPreservesMeaning` | fdw/pxf_filter.c:1398-1435 | For well-shaped qualifiers with faithful leaves, the server parses a pushed string, and on every row its tree has the value of SQL's AND of the qualifiers; x op ANY (array) means the OR of the comparisons with the elements, x op ALL (array) their AND |
| `FilterPushdown.SerializePxfFilterQuals` | fdw/pxf_filter.c:1398-1435 | The entry point returns the serialization of the compiled list, and a string it pushes for such qualifiers has that meaning on every row |
| `FilterPushdown.PushAndReceive` | fdw/pxf_filter.c:1398-1435 | The entry point and the parser object together |
| `FilterPushdown.LeafSurvivesIffFaithful` | fdw/pxf_filter.c:777-959 | A pushed leaf keeps its SQL meaning on every row if and only if it has no NULL constant, no constant of type "char", no array constant that is NULL, of no array type or passed by value with elements, no list constant on the left and no constant on the left of LIKE |
| `FilterPushdown.UnfaithfulWitness` | fdw/pxf_filter.c:1197-1241 | For every other pushed leaf there is a row that the server misjudges |
| `FilterPushdown.ListOnLeftRejected` | fdw/pxf_filter.c:658-666 | A list constant on the left goes out with the scalar code and stops the server's parser, whatever text follows and whatever is on its stack |
| `FilterPushdown.LikeIsReversed` | server/pxf-api/src/main/java/org/greenplum/pxf/api/filter/FilterParser.java:361-367 | A constant LIKE a column is read as the column LIKE the constant |
| `FilterPushdown.ReversedLikeIsPushed` | fdw/pxf_filter.c:777-855 | Such a leaf is pushed: 'abc' LIKE the first column |
| `FilterPushdown.UnreadableFails` | server/pxf-api/src/main/java/org/greenplum/pxf/api/filter/FilterParser.java:256-266 | So does a constant of a type the server does not take |
| `FilterPushdown.StoppingLeafFailsFilter` | server/pxf-api/src/main/java/org/greenplum/pxf/api/filter/FilterParser.java:158-202 | One such leaf anywhere in a pushed list makes the server reject the whole string |
| `Transfer.ChurlBuffer.Store` | fdw/libchurl.c:737-756 | Appends the bytes behind those buffered and keeps bot <= top <= max |
| `Transfer.ChurlBuffer.Compact` | fdw/libchurl.c:1136-1149 | Moves the overlapping block to the front without changing the buffered bytes |
| `Transfer.ChurlBuffer.Realloc` | fdw/libchurl.c:1151-1164 | Grows the block to fit and keeps the buffered bytes |
| `Transfer.ChurlBuffer.Enlarge` | fdw/libchurl.c:647-655 | Replaces the block; it is called only when nothing is buffered, so nothing is lost |
| `Transfer.Download.WriteCallback` | fdw/libchurl.c:737-756 | Received bytes follow the buffered ones, through compaction and growth |
| `Transfer.Download.MultiPerform` | fdw/libchurl.c:580-591 | Any number of callbacks only moves bytes from what is to come to what is buffered; whether the response will be good at the end, and at its first byte, is what it was |
| `Transfer.Download.FillInternalBuffer` | fdw/libchurl.c:762-817 | Returns with enough bytes or at the end of the transfer, and keeps the stream and the state of the response at the end |
| `Transfer.Download.Read` | fdw/libchurl.c:444-471 | The bytes returned and the stream that is left are the stream before; the count is the size asked for or all that is left, and a short read happens only when the transfer has ended |
| `Transfer.Download.CheckConnectivity` | fdw/libchurl.c:430-439 | Reads ahead without changing the stream, and succeeds if and only if the response is good at its first byte, or at its end if nothing is left |
| `Transfer.WellByLastStep` | fdw/libchurl.c:762-836 | A transfer ends well if and only if the last step made reports a good response, and opens well if and only if the first step that brings a byte, or else the last, does |
| `Transfer.Download.Restart` | fdw/libchurl.c:382-401 | What is left in the buffer is delivered before the new body; the response is then judged by the new transfer alone |
| `Transfer.Upload.ReadCallback` | fdw/libchurl.c:537-549 | Moves as many bytes as asked for, or all, from the buffer to what was sent |
| `Transfer.Upload.FlushInternalBuffer` | fdw/libchurl.c:599-626 | Without an error everything accepted was sent and the cursors are reset; an error means a bad response or a connection that ended with bytes left |
| `Transfer.Upload.Write` | fdw/libchurl.c:406-425 | Without an error the bytes follow all bytes accepted before; with one nothing accepted is lost |
| `Transfer.Upload.Finish` | fdw/libchurl.c:661-677 | Without an error every accepted byte was sent once and in order, and the response was good at the end |
| `Transfer.UploadAll` | fdw/libchurl.c:406-425 | Over every script of callbacks the server receives a prefix of what was written; all of it, and a good response at the end, if no error is raised, and if it reports no error of its own and receives all, none is raised |
| `Fragments.FragmentRoundTrip` | fdw/pxf_fragment.c:385-435 | A fragment survives serialization except for its authority |
| `Fragments.DispatchToSegment` | fdw/pxf_fdw.c:393-423 | A segment receives every fragment, in order, without its authority |
| `Fragments.FragmentList.FilterFragmentsForSegment` | fdw/pxf_fragment.c:322-378 | Deleting cells in place leaves the segment's share, numbered from 1; an error is raised exactly on an empty list |
| `Fragments.ShareIsOwnedSublist` | fdw/pxf_fragment.c:322-378 | The share is the list at the owned indices, in list order, numbered 1 to k |
| `Fragments.OwnedIndices` | fdw/pxf_fragment.c:322-378 | The owned indices increase and are exactly those the remainder assigns to the segment |
| `Fragments.ExactlyOneOwner` | fdw/pxf_fragment.c:322-378 | Among the indices that all segments keep, an index occurs exactly once if and only if index plus base is not negative or is a multiple of the segment count, and otherwise never |
| `Fragments.NegativeBaseLosesFragments` | fdw/pxf_fragment.c:343-351 | With a negative session id a fragment can be processed by no segment |
| `Fragments.OwnerIsRemainder` | fdw/pxf_fragment.c:322-351 | With a session id and a command count that are not negative, index i belongs to segment (i + session + command) mod N |
| `Fragments.NextCommandTurns` | fdw/pxf_fragment.c:322-351 | The next command of a session moves every index to the next segment |
| `Fragments.OwnedCount` | fdw/pxf_fragment.c:322-378 | The exact number of indices each segment keeps, for every base |
| `Fragments.Balanced` | fdw/pxf_fragment.c:322-378 | No segment keeps more than the ceiling of an equal share, and none fewer than the floor unless the base is negative |
| `Bridge.SplitAllIsWhole` | fdw/pxf_bridge.c:99-129 | The chunks joined are the bodies joined; no chunk is empty or longer than the buffer |
| `Bridge.ReadTakesFirstChunk` | fdw/pxf_bridge.c:99-129 | One read takes the first chunk of what is owed, and an empty read means nothing is owed |
| `Bridge.Scan.FillBuffer` | fdw/pxf_bridge.c:224-241 | Fills the buffer from the stream, short only if the stream is shorter |
| `Bridge.Requests.Next` | fdw/pxf_bridge.c:116-122 | The header list is edited for the next fragment, and the answer is the one to the list then in force |
| `Bridge.Scan.NextFragment` | fdw/pxf_bridge.c:116-122 | The next request goes out with its headers and its transfer starts on a drained buffer, so its body alone is owed next |
| `Bridge.Scan.PxfBridgeRead` | fdw/pxf_bridge.c:99-129 | Returns the next bytes of the first fragment that has any, never of two fragments, and leaves exactly the rest owed, nothing after the end; it succeeds as long as the current answer ends well and those after it open and end well, and an error means that one of them does not |
| `Bridge.ScanSegment` | fdw/pxf_bridge.c:57-129 | A whole scan delivers the bodies its requests fetch, each split on its own, in order, and succeeds if and only if every answer opens and ends well |
| `Bridge.RunSegment` | fdw/pxf_fdw.c:393-423 | From the dispatched list to the last chunk, a segment delivers the specified chunks, and succeeds if and only if the list is not empty and every answer opens and ends well |
| `Bridge.HealthyServerAnswers` | fdw/libchurl.c:430-439 | A server that never reports an error answers every segment well |
| `Bridge.OwnBody` | fdw/pxf_bridge.c:184-219 | A request fetches its own fragment's body when nothing of an earlier fragment is left over in its headers |
| `Bridge.OtherBody` | fdw/pxf_bridge.c:184-219 | When something is left over there is a server for which it fetches another body |
| `Bridge.UniformIsSeparate` | fdw/pxf_bridge.c:184-219 | Fragments that all have a value for a header, or all have none, leave nothing over |
| `Bridge.SegmentChunksAreOwnedBodies` | fdw/pxf_bridge.c:99-129 | A segment's chunks are the bodies of the fragments it owns, each split on its own, in list order |
| `Bridge.RunQuery` | fdw/pxf_fdw.c:393-423 | The chunks of all segments; it succeeds if and only if the list is not empty and every answer to every segment opens and ends well |
| `Bridge.DeliveredIsJoined` | fdw/pxf_bridge.c:99-129 | What the segments deliver one after the other are the bodies at the indices they keep, byte for byte |
| `Bridge.EveryFragmentReadOnce` | fdw/pxf_fragment.c:322-378 | Over the chunks of all segments: each segment delivers its fragments' bodies whole and in order, fragment i occurs exactly once if and only if it has an owner, and when all have one the bytes delivered are those of all bodies |
| `Bridge.RunPxfQuery` | fdw/pxf_bridge.c:57-129 | The query with the wrapper's own header keys delivers, for a base that is not negative, exactly the bytes of all bodies, and succeeds if and only if the list is not empty and every answer opens and ends well |
| `Headers.HeaderList.Search` | fdw/libchurl.c:192-297 | Finds the first cell with the prefix |
| `Headers.CellReadsBack` | fdw/libchurl.c:162-177 | A cell written for a key and a value is read, at its first colon, as that key and that value |
| `Headers.FoundIsRead` | fdw/libchurl.c:192-223 | A search for a value's cell finds exactly the cells that are read under the key |
| `Headers.HeaderList.HeadersOverride` | fdw/libchurl.c:192-237 | Rewrites the first cell that starts with the key, or appends one: the value is read back as the key's first, and no other name's values change |
| `Headers.HeaderList.HeadersRemove` | fdw/libchurl.c:239-297 | Deletes the first cell that starts with the key, wherever it is: the key's first value is gone, and no other name's values change |
| `Headers.HeaderList.SetCurrentFragmentHeaders` | fdw/pxf_bridge.c:184-219 | The sequence of overrides and removals made for a fragment, one edit for each key |
| `Headers.EditInRequest` | fdw/pxf_bridge.c:184-219 | A request's edits reach each key's cells once, and change no other cell nor the order |
| `Headers.OneKeyOnly` | fdw/libchurl.c:192-297 | A cell starts with at most one of two keys unless one key is the beginning of the other |
| `Headers.PxfKeysValid` | fdw/pxf_bridge.c:193-215 | The seven keys are colon-free and none is the beginning of another |
| `Headers.SlotIs` | fdw/libchurl.c:192-237 | A key's cells after any number of requests: the first missing value leaves the bare key for good, and later values stand behind it |
| `Headers.KeyDescribesIff` | fdw/pxf_bridge.c:184-219 | At each request the fragment's value is the only one read for a key, or none is read without a value, if and only if no value stands between two missing ones of which the later is the fragment's |
| `Headers.RequestDescribesIff` | fdw/pxf_bridge.c:184-219 | Request n says what fragment n says, with the user data exactly if present and the last mark exactly if last, if and only if that holds of the source name, the index and the metadata; all other cells keep value and order |
| `Headers.RequestSaysFragment` | fdw/pxf_bridge.c:184-219 | Under their names X-GP-DATA-DIR, X-GP-DATA-FRAGMENT, X-GP-FRAGMENT-METADATA, X-GP-FRAGMENT-INDEX, X-GP-FRAGMENT-USER-DATA, X-GP-LAST-FRAGMENT and X-GP-PROFILE, an undisturbed request has exactly the values of its fragment |
| `Headers.EveryRequestDescribesIff` | fdw/pxf_bridge.c:99-129 | All requests of a scan describe their fragments if and only if in no field a value stands between two missing ones |
| `Headers.StaleValueIsSent` | fdw/libchurl.c:192-237 | Null, a value, null: the third request still carries the second fragment's value |
| `Headers.MissingValueClearsIff` | fdw/libchurl.c:192-237 | On any list with at most one value for the key, an override without a value clears it if and only if there is none or it is in the first cell that starts with the key |
| `Headers.ProfileIsLatest` | fdw/pxf_bridge.c:212-218 | The profile read is that of the last fragment so far that has a profile, else the initial one |
| `Headers.ProfileIsOwnIff` | fdw/pxf_bridge.c:212-218 | It is the fragment's own if and only if the fragment has one or no earlier fragment has |
| `Headers.RequestIsOwnIff` | fdw/pxf_bridge.c:184-219 | What the server reads is the fragment's own request if and only if no field is interrupted and no profile is left over |
| `FragmentResponse.FragmentParser.ObjectFieldStart` | fdw/pxf_fragment.c:150-196 | The field handler's new state, or an error, for every name and token |
| `FragmentResponse.SameNameIff` | fdw/pxf_fragment.c:150-196 | Two field names are taken for one if and only if they differ in nothing but the case of ASCII letters |
| `FragmentResponse.FragmentParser.ScalarValue` | fdw/pxf_fragment.c:198-250 | The scalar handler's new state, or an error, in every parser state |
| `FragmentResponse.FragmentParser.ArrayElementStart` | fdw/pxf_fragment.c:252-274 | A new fragment starts at depth 1 only |
| `FragmentResponse.FragmentParser.ArrayElementEnd` | fdw/pxf_fragment.c:276-287 | A fragment without replicas is dropped at depth 0 only |
| `FragmentResponse.ParseGetFragmentsResponse` | fdw/pxf_fragment.c:289-315 | Runs the handlers over all events of the document; on a shaped response the result is exactly the replicated fragments |
| `FragmentResponse.FieldHandled` | fdw/pxf_fragment.c:150-250 | One field of the format, in any position, updates the fragment being read as the document says |
| `FragmentResponse.ForeignHandled` | fdw/pxf_fragment.c:150-250 | A number or truth value of another name is ignored, taken for an index, or an error, as the field before it decides |
| `FragmentResponse.RaisingHandled` | fdw/pxf_fragment.c:160-196 | A string, null or array of another name, and a null source name, is an error wherever it stands |
| `FragmentResponse.KeepsIndexIff` | fdw/pxf_fragment.c:154-159 | That condition on the document says that the index read is the index described |
| `FragmentResponse.ResponseIsParsedIff` | fdw/pxf_fragment.c:150-315 | A response with fields in any order, repeated, missing or unexpected gives exactly the elements whose last replicas array holds a string, in document order, with the document's values, if and only if no unexpected field is an error and, in each element that is kept, the last number in the run of foreign fields behind the last index field, if there is one, has the index's text |
| `FragmentResponse.ResponseIsParsed` | fdw/pxf_fragment.c:150-315 | So every response without foreign fields is read as it means |
| `FragmentResponse.ServerResponseIsReceived` | server/pxf-api/src/main/java/org/greenplum/pxf/api/utilities/FragmentsResponse.java:66-84 | From the response that the server writes for any list of fragments the wrapper receives exactly those with a host, in order and value for value; it is an error if and only if the hosts of one are null |
| `FragmentResponse.ForeignNumberOverwritesIndex` | fdw/pxf_fragment.c:150-160 | A number of another name directly after the index is taken for the index |
| `Backtracking.Forward` | automation/tinc/main/ext/modgrammar/grammar_py2.py:69-106 | Going forward yields what is due and leaves the stack owing the rest of the successes |
| `Backtracking.Backtrack` | automation/tinc/main/ext/modgrammar/grammar_py2.py:109-137 | Backing up resumes the next suspended iterator, or ends with every success yielded |
| `Backtracking.GrammarParse` | automation/tinc/main/ext/modgrammar/grammar_py2.py:45-141 | The loop terminates and yields the list of successes |
| `Backtracking.PathsAreAccepted` | automation/tinc/main/ext/modgrammar/grammar_py2.py:52-141 | A choice sequence is listed if and only if each choice is one of its element's successes and its length lies between min and max |
| `Backtracking.PathsAreOrdered` | automation/tinc/main/ext/modgrammar/grammar_py2.py:52-141 | The list is strictly ordered: post-order when greedy, pre-order when not |
| `Backtracking.PathsAreDistinct` | automation/tinc/main/ext/modgrammar/grammar_py2.py:52-141 | No choice sequence is listed twice |
| `Backtracking.EnumFollowsPaths` | automation/tinc/main/ext/modgrammar/grammar_py2.py:52-141 | The list of successes is the list of matches along these choice sequences |
| `Grammars.EnumMembers` | automation/tinc/main/ext/modgrammar/grammar_py2.py:52-141 | The engine's list holds exactly the chains of successes of an accepted length |
| `Grammars.ParseWord` | automation/tinc/main/ext/modgrammar/__init__.py:1028-1050 | The generator yields every length from the longest down, or from the shortest up |
| `Grammars.WordExact` | automation/tinc/main/ext/modgrammar/__init__.py:983-1050 | A word matches exactly the texts of a start character and rest characters within its bounds |
| `Grammars.WordIsOrdered` | automation/tinc/main/ext/modgrammar/__init__.py:1028-1050 | A greedy word offers strictly decreasing lengths, any other strictly increasing ones |
| `Grammars.OrMembers` | automation/tinc/main/ext/modgrammar/__init__.py:705-720 | An alternative's success is a success of the whole, and there are no others |
| `Grammars.OrIsOrdered` | automation/tinc/main/ext/modgrammar/__init__.py:705-720 | The successes of an alternative come after all those of earlier ones and before all those of later ones |
| `Grammars.ParseExpr` | automation/tinc/main/ext/modgrammar/__init__.py:597-720 | The generators of nested literals, words, alternatives, sequences and repetitions yield the specified successes in order |
| `Grammars.SuccessesAreParseTrees` | automation/tinc/main/ext/modgrammar/__init__.py:597-908 | For every grammar, text and position the successes are exactly the parse trees that begin there |
| `Grammars.SelectMatch` | automation/tinc/main/ext/modgrammar/__init__.py:388-397 | The match asked for is selected; among equal lengths the earliest |
| `Grammars.ParseText` | automation/tinc/main/ext/modgrammar/__init__.py:345-414 | There is a result if and only if there is a parse tree at the position; 'longest' and 'shortest' are so among all of them, 'all' is all of them, and without one it is an error except at the end of the text |
| `Grammars.RepetitionNeedsNoBound` | automation/tinc/main/ext/modgrammar/__init__.py:897-908 | If every success of the item takes a character, all maxima above the length of the remaining text give the same successes in the same order |
| `PropertyNetwork.Search.Visit` | automation/tinc/main/ext/suds/properties.py:366-406 | On every link graph the walk terminates, restores its history and sees exactly the objects on simple paths |
| `PropertyNetwork.Search.Provider` | automation/tinc/main/ext/suds/properties.py:338-364 | On every link graph, cyclic or not, the search terminates and returns a definer whenever a reachable object defines the name, otherwise the start |
| `PropertyNetwork.SeenIsGroup` | automation/tinc/main/ext/suds/properties.py:338-406 | Searching simple paths with a history reaches the whole connected group |
| `PropertyNetwork.Network.ProviderOf` | automation/tinc/main/ext/suds/properties.py:338-364 | The provider is in the group and defines the name whenever any member does |
| `PropertyNetwork.Network.LinkWith` | automation/tinc/main/ext/suds/properties.py:48-91 | Succeeds exactly on unlinked objects whose groups share no domain and no name; then the new link, and no other, is there and the groups are one; a failed call changes nothing |
| `PropertyNetwork.EdgesAfterLink` | automation/tinc/main/ext/suds/properties.py:48-91 | After the call a link is there if and only if it was before or the call succeeded and it joins the two objects |
| `PropertyNetwork.GroupAfterLink` | automation/tinc/main/ext/suds/properties.py:48-91 | A successful call makes the groups of the two objects one group |
| `PropertyNetwork.LinkableIff` | automation/tinc/main/ext/suds/properties.py:61-91 | In a sound network validation refuses exactly the links that are there already, close a cycle, or make a domain or a name ambiguous in the joined group |
| `PropertyNetwork.Network.UnlinkFrom` | automation/tinc/main/ext/suds/properties.py:323-336 | Afterwards a link is there if and only if it was before and does not join the object with a named one, or with any if none is named |
| `PropertyNetwork.EdgesAfterUnlink` | automation/tinc/main/ext/suds/properties.py:323-336 | The same about the effect of the call |
| `PropertyNetwork.UnlinkUndoesLink` | automation/tinc/main/ext/suds/properties.py:311-336 | Unlinking a link just made restores the network, with the order of all links |
| `PropertyNetwork.LinkKeepsInv` | automation/tinc/main/ext/suds/properties.py:48-91 | A successful link joins unconnected objects and keeps links symmetric, groups separate and the network a forest |
| `PropertyNetwork.DropKeepsInv` | automation/tinc/main/ext/suds/properties.py:93-105 | So does taking a link away |
| `PropertyNetwork.EveryRunKeepsInv` | automation/tinc/main/ext/suds/properties.py:311-336 | After any sequence of link and unlink calls, failed ones included, links are symmetric, connected objects have different domains and disjoint names, and no link closes a cycle |
| `PropertyNetwork.UnlinkedNetworkIsSound` | automation/tinc/main/ext/suds/properties.py:216-232 | Newly made objects are such a network, whatever their domains and names |
| `PropertyNetwork.ProviderIsUnique` | automation/tinc/main/ext/suds/properties.py:338-364 | A name has at most one provider in a group |
| `JsonStrings.PaddedHexIsNibbles` | automation/tinc/main/ext/simplejson/_speedups.c:59-67 | The four nibbles written by the C code are the digits of Python's %04x |
| `JsonStrings.AsciiEscapeChar` | automation/tinc/main/ext/simplejson/_speedups.c:27-70 | Appends exactly the Python escaper's replacement |
| `JsonStrings.Grow` | automation/tinc/main/ext/simplejson/_speedups.c:100-111 | Doubling with a cap, which may shrink the buffer, keeps the text and leaves room for the next character and the quote |
| `JsonStrings.GrownIsRoomy` | automation/tinc/main/ext/simplejson/_speedups.c:100-111 | The capacity argument behind it |
| `JsonStrings.AsciiEscapeUnicode` | automation/tinc/main/ext/simplejson/_speedups.c:72-118 | Every write is inside the output, the text equals the Python escaper's for every string, and it is at most 2 + n * MAX_EXPANSION long |
| `JsonStrings.AsciiEscapeStr` | automation/tinc/main/ext/simplejson/_speedups.c:120-177 | The same for ASCII byte strings with the smaller bound; the first other byte restarts on the decoded string, or fails with the decoder |
| `JsonStrings.EscapedIsPrintable` | automation/tinc/main/ext/simplejson/encoder.py:57-72 | Whatever a string holds, its literal is printable ASCII |
| `JsonStrings.ScanOfQuoted` | automation/tinc/main/ext/simplejson/encoder.py:57-72 | Scanning an escaped string gives its UTF-16 code units and exactly the text after the closing quote |
| `JsonStrings.ScanString` | automation/tinc/main/ext/simplejson/decoder.py:68-109 | The chunk loop agrees with the scanner's specification on every document, errors included |
| `JsonStrings.JoinUndoesUtf16` | automation/tinc/main/ext/simplejson/encoder.py:64-71 | A string can be recovered from its code units if and only if it spells no pair out of surrogates |
| `JsonStrings.NarrowIsUnchanged` | automation/tinc/main/ext/simplejson/encoder.py:64-71 | A string comes back unchanged if and only if it has no character beyond U+FFFF |
| `JsonRoutines.IterEncode` | automation/tinc/main/ext/simplejson/encoder.py:272-308 | The joined chunks are the specified text |
| `JsonRoutines.IterEncodeList` | automation/tinc/main/ext/simplejson/encoder.py:168-199 | The loop with its first flag writes the items, separators and brackets of the specified text |
| `JsonRoutines.IterEncodeDict` | automation/tinc/main/ext/simplejson/encoder.py:201-270 | The same for string-keyed dictionaries |
| `JsonRoutines.ScanOnce` | automation/tinc/main/ext/simplejson/scanner.py:33-56 | One value is scanned at a position as specified on every document, errors included |
| `JsonRoutines.JsonArray` | automation/tinc/main/ext/simplejson/decoder.py:160-184 | The loop over a moving index agrees with the specification on every document |
| `JsonRoutines.JsonObject` | automation/tinc/main/ext/simplejson/decoder.py:118-158 | The same for objects, a later equal key replacing an earlier one |
| `JsonRoutines.DecodeDocument` | automation/tinc/main/ext/simplejson/decoder.py:246-271 | One value between white space and nothing else |
| `JsonRoutines.EncodeThenDecode` | automation/tinc/main/ext/simplejson/encoder.py:272-308 | The round trip through the loops themselves |
| `JsonCodec.ParseOfEncode` | automation/tinc/main/ext/simplejson/decoder.py:118-184 | Inside any document, an encoded value parses to its image and leaves exactly the text after it |
| `JsonCodec.DecodeOfEncode` | automation/tinc/main/ext/simplejson/decoder.py:246-271 | Decoding an encoded value gives its image, for every value of nulls, booleans, integers, strings, lists and string-keyed dictionaries |
| `JsonDocuments.PiecesScanned` | automation/tinc/main/ext/simplejson/decoder.py:68-109 | Every string literal, with any short escape and hexadecimal digits in either case, is read as the characters it spells |
| `JsonDocuments.FourHexIff` | automation/tinc/main/ext/simplejson/decoder.py:95-105 | Four characters after \u are taken if and only if they are hexadecimal digits, or two of them behind 0x or 0X |
| `JsonDocuments.NumeralParsed` | automation/tinc/main/ext/simplejson/decoder.py:50-58 | A number is read as its integer, or with a fraction or an exponent as its text |
| `JsonDocuments.DocParsed` | automation/tinc/main/ext/simplejson/decoder.py:118-184 | Any value, with any white space inside and any spelling of strings and numbers, is read as what it means, with exactly the text after it left |
| `JsonDocuments.EveryDocumentDecodes` | automation/tinc/main/ext/simplejson/decoder.py:246-271 | Every document of RFC 8259 decodes to what it means |
| `JsonDocuments.ParsedIsSpelled` | automation/tinc/main/ext/simplejson/decoder.py:118-184 | Whatever is taken for a value is the text of a value as the grammar allows it, and is read as what it means |
| `JsonDocuments.DecodesExactly` | automation/tinc/main/ext/simplejson/decoder.py:246-271 | A text decodes to a value if and only if it is a document that means it; documents are those of RFC 8259 and, as Python takes them, NaN and the infinities, raw control characters, vertical tabs and form feeds as white space, and 0x in a \u escape |
| `JsonCodec.RoundTrip` | automation/tinc/main/ext/simplejson/encoder.py:272-308 | The decoded value holds the encoded one, member for member with strings as UTF-16 units, if and only if no two keys of a dictionary become the same units |
| `JsonCodec.ImageMembersCount` | automation/tinc/main/ext/simplejson/decoder.py:131-153 | Storing members in turn leaves one entry for each exactly when no key is met twice |
| `JsonCodec.SurrogateKeysCollide` | automation/tinc/main/ext/simplejson/encoder.py:64-71 | A wide character and its two surrogates as keys leave one entry |
| `JsonCodec.UnpairedKeysStayApart` | automation/tinc/main/ext/simplejson/encoder.py:64-71 | Different keys that spell no surrogate pair stay different |
| `LinkedDict.AppendLink` | automation/tinc/main/ext/qautils/ordereddict.py:43-51 | Three assignments put a link at the end of the circle |
| `LinkedDict.RemoveLink` | automation/tinc/main/ext/qautils/ordereddict.py:53-60 | Two assignments take a link out of the circle, wherever it is |
| `LinkedDict.PopLink` | automation/tinc/main/ext/qautils/ordereddict.py:90-111 | Takes the last or the first link out |
| `LinkedDict.OrderedDict.SetItem` | automation/tinc/main/ext/qautils/ordereddict.py:43-51 | A new key goes to the end, an old one keeps its place, and its value is set |
| `LinkedDict.OrderedDict.DelItem` | automation/tinc/main/ext/qautils/ordereddict.py:53-60 | Removes the key from the order and the dictionary; fails exactly on an unknown key and then changes nothing |
| `LinkedDict.OrderedDict.PopItem` | automation/tinc/main/ext/qautils/ordereddict.py:90-111 | Returns and removes the newest or the oldest pair; fails exactly when empty |
| `LinkedDict.OrderedDict.Clear` | automation/tinc/main/ext/qautils/ordereddict.py:78-88 | Empties order and dictionary |
| `LinkedDict.KeyList.Iterate` | automation/tinc/main/ext/qautils/ordereddict.py:62-68 | Walking the next links lists the keys in insertion order and ends |
| `LinkedDict.KeyList.IterateReversed` | automation/tinc/main/ext/qautils/ordereddict.py:70-76 | Walking the previous links lists the exact reversal |
| `LinkedDict.Replay` | automation/tinc/main/ext/qautils/ordereddict.py:43-111 | Every run of set, delete, popitem and clear ends in the contents that the plain sequence and dictionary have |
| `LinkedDict.RunIsConsistent` | automation/tinc/main/ext/qautils/ordereddict.py:43-111 | On every run the order repeats no key and holds exactly the dictionary's keys |

## Left out

- extractPxfAttributes and append_attr_from_func_args in `fdw/pxf_filter.c`: separate from the compiler.
- The value of a comparison of two scalars: an arbitrary function of the row, the relation and the operands, so that an array comparison is one of elements; the type's output function is the text that a constant carries. A comparison with the column on the right means the mirrored one, except for LIKE.
- What the server's accessors do with the tree: no operation on a column and true is read as the column itself, and pruning of operators an accessor does not support is left out. The bytes of a constant are taken as they are, which is what UTF-8 decoding gives for valid text.
- Null tests on anything but a column, and the collation, typmod and function fields of expression nodes.
- The wrap-around of C `int` cursors, sizes and of session id plus command count: these are unbounded here, and so is the length of a filter string. Column numbers are C shorts, a constant's text fits the allocator's limit, and the server's `int` range and the C remainder of negative numbers are modelled.
- libcurl, timeouts, HTTP status texts and error messages in `fdw/libchurl.c`: a good or bad response is a flag of the script. A transfer is a finite script; one that never ends is not modelled.
- PxfBridgeRead: requires a read size above 0 and a current fragment; its callers pass a buffer and stop at the end of data, where the C code would follow a null cell.
- RequestDescribesIff: requires that the scan starts with one cell at most for each managed key, none that only begins like one, and no last mark, which is what the wrapper's own headers are; so do EveryRequestDescribesIff, RequestIsOwnIff and SegmentChunksAreOwnedBodies.
- EveryFragmentReadOnce: the bodies are those of the fragments' own requests where no leftovers are sent; otherwise ScanSegment says which request each chunk answers. The server's answer does not depend on the last mark, which its security filter uses to release a session.
- ResponseIsParsedIff: leaves out elements with objects inside, with nested values among the replicas, and with numbers or truth values under the names of text fields; their outcome is that of the handlers in ParseGetFragmentsResponse.
- The case folding of letters beyond ASCII, which depends on the locale of a single-byte encoding, and headers with an empty value, which libcurl does not send: here such a header is read as the empty value.
- Memory allocation, the URI, and the authority that a segment assigns after the dispatch (`fdw/pxf_fdw.c`).
- Planner and executor callbacks, COPY set-up, options and deparsing in `fdw/`: plumbing with easy members only.
- Whitespace skipping, incremental input, the text of error reports, references, EXCEPT, NOT_FOLLOWED_BY and EBNF output of modgrammar; the objects of its results are reduced to the text they cover and their elements. A word's pattern is a pair of character sets.
- Values, defaults and validation of suds properties: only domains, names and links matter here. An unlink names linked objects by identity.
- JSON floats: a literal with a fraction or an exponent, NaN and the infinities decode to their own text. Indentation, sorted and non-string keys, object hooks, and circular references (values are trees) are left out.
- JSON documents are sequences of Unicode scalar values, so documents with raw lone surrogates are left out, and only ASCII digits count in a \u escape, where Python also takes other decimal digits of a unicode document.
- The hash order of a Python 2 dictionary: a dictionary to encode comes with its members in some order, and every order is covered.
- Comparison, copying, pickling and views of the ordered dictionary.
