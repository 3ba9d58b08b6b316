# Verified model of the home gateway's algorithms

The gateway firmware is mostly input and output. This project models its hard algorithms in Dafny,
each in the form the C code has (classes with mutable fields, loops over arrays, linked nodes), and
proves what they are for. Run `dafny verify dfyconfig.toml` in this directory to check everything.

## What is modelled

**Link documents** (`Jsmn`, `Forest`, `Nesting`, `Navigate`, `JsonParser`, `JsonText`, `Refusals`,
`Places`, `Lookup`, `HashMap`, `Links`, `LinkButton`). The tokeniser, compiled in strict mode with parent
links, is the class `Jsmn.Parser`; its two passes refine the functions `Run` (filling) and `CountRun`
(counting).

- Whatever the filling pass accepts, JSON or not, is a forest in preorder with right child counts
  and bracketed spans (`Forest.AcceptedIsForest`). `json_skip_elem` and the searches rest on this.
- Its spans nest if and only if no token of the text begins after a colon that follows a closing
  bracket, before an open bracket is closed (`Nesting.NestsIffTidy`, for every accepted text; `Tidy` is a
  scan of the text). Every JSON text is like that; `[]:[]` is accepted and is not.
- The two passes move in lock step, so the array that the first one sizes is exactly filled.
- For every JSON value in every layout, tokenising undoes printing (`JsonText.ParseUndoesShow`). The
  one exception is exact: a bare number or literal at the end of the text is taken for unfinished.
- What the main loop takes, and which strings and primitives, is given in both directions
  (`Refusals.StepTakes`, `StringIff`, `PrimitiveIff`), and from that the texts that are refused.
- Searching the tokens finds the parts of the value (`Lookup`); leaving undoes getting exactly for keys
  that have a value.
- The hash table is a heap of linked nodes that refines a finite map, with failed allocations, and
  its iterator lists every key once.
- From a document to the queues: a pressed button reaches the other members of its group, in order, and
  nothing else: one contract from text and key to what is sent (`LinkButton.Press`).

**Mesh provisioning** (`MeshComposition`, `MeshBind`). Composition data encode and decode; the parser
fills the node's tables with exactly the elements of the data, and of a page that encodes elements with
just those (`MeshComposition.TablesOf`). The bind driver, whose cursor lives in static variables across
callbacks, is a state machine over statuses and timeouts, refined by the class `Driver`; the theorem is
about every run. `MeshBind.Provision` is one contract from the bytes to the requests.

**WebSocket** (`WebSocket`, `WebSocketServer`). Sending builds the frame of sections 5.2 and 5.3 of
RFC 6455. Reading chunks that begin with a frame gives the message back and leaves what follows if and
only if the frame ends with a chunk, even though the first copy reads beyond the chunk. On every run of
arrivals and handled events, queued events and received chunks stay in step if and only if no read needs
several chunks that hold more than the frame announced, and the events left behind are counted
otherwise. The chunks may hold anything, but no read starts on a chunk without its whole header: there
the code would look behind the chunk.

**XMODEM** (`Crc`, `Xmodem`). The shift-and-xor CRC is the remainder of polynomial division (section 2
of ITU-T V.41), and a receiver that checks numbers, complements and CRCs gets the image: one contract
from the file to the receiver (`Xmodem.Transfer`).

**Button** (`Button`). The debounced level, the order of the events and their times, for every
sequence of samples.

`Basics` and `Bits` hold the types and the bit operations these share. Characters are unsigned on
the target, so bytes are 0 to 255.

## Where code and documentation differ

- The button component's configuration admits 8 debounce ticks, and the source says so; the counter
  has three bits and never gets to 8, so such a button reports nothing. `Button.ReportsIff` gives the
  exact condition.
- A read loses what follows a frame in its only chunk (`WebSocket.RestOfChunkIsLost`), and loses the
  frame itself if it takes several chunks and the last one holds more (`WebSocket.OverrunLosesFrame`).
  In the latter case it also leaves events without chunks, so that a later read waits
  (`WebSocketServer.OverrunLeavesEvent`). `WebSocket.ReadsBackIff` and `WebSocketServer.EveryRunAccounts`
  give the exact conditions, by what the frames hold and by the lengths of the chunks.
- A button that stands in several groups reaches the last of them only, though buttons of the others
  reach it (`Links.LinkedIff`, `Links.TwoGroupsAreNot`). Its entries are copied over one another;
  `Links.NoOverrunIff` says when they all fit.
- A repeated press that lasts as long as SHORT_TICKS ends its burst without a click, and so does a long
  press. `Button.RunPauses` says which bursts wait for a click.
- In strict mode the tokeniser takes a literal at the very end of the text for an unfinished one
  (`JsonText.BareLit`).

## Model

| member | source | states |
|---|---|---|
| Bits.AndIsMod | VhomeBridge/main/linkNode/map/map.c:44-48 | masking with a power of two less one is the remainder, which is what lets the table double |
| Bits.XorUndoes | VhomeBridge/main/webSocket/websocket.c:57-63 | xor with the same byte twice gives the byte back |
| Bits.HalfXor | VhomeBridge/main/webSocket/websocket.c:61 | xor bit by bit: the lowest bit is the parity of the lowest bits, and halving it is the xor of the halves |
| Jsmn.LockStep | VhomeBridge/main/linkNode/json_parser/jsmn.h:275-441 | a step of the filling pass that succeeds is matched by one of the counting pass, to the same position and with the same count; one that lacks a token is matched by a count beyond the capacity |
| Jsmn.CountedIsEnough | VhomeBridge/main/linkNode/json_parser/json_parser.c:374-388 | with as many tokens as the counting pass counted, the filling pass never lacks one, and if it succeeds it fills exactly that many |
| Jsmn.AcceptedIsCounted | VhomeBridge/main/linkNode/json_parser/jsmn.h:268-453 | what the filling pass accepts, the counting pass has counted exactly |
| Jsmn.Parser.Init | VhomeBridge/main/linkNode/json_parser/jsmn.h:459-463 | the parser is at the start, with no token and no superior |
| Jsmn.Parser.AllocToken | VhomeBridge/main/linkNode/json_parser/jsmn.h:106-130 | the next token of the pool is taken and filled, or, if none is left, nothing changes |
| Jsmn.Parser.ParsePrimitive | VhomeBridge/main/linkNode/json_parser/jsmn.h:135-188 | a primitive up to its delimiter becomes a token below the superior, leaving the position on its last character; unfinished, illegal and out of tokens are told apart |
| Jsmn.Parser.ParseHex | VhomeBridge/main/linkNode/json_parser/jsmn.h:239-253 | up to four hexadecimal digits are passed, stopping on the last one |
| Jsmn.Parser.ParseString | VhomeBridge/main/linkNode/json_parser/jsmn.h:193-263 | a string up to its closing quote, escapes checked, becomes a token with the span between the quotes |
| Jsmn.Parser.FindOpen | VhomeBridge/main/linkNode/json_parser/jsmn.h:318-335 | the walk along the parent links stops at the nearest open token, or at a root |
| Jsmn.Parser.OpenContainer | VhomeBridge/main/linkNode/json_parser/jsmn.h:282-307 | an opening bracket adds an open container below the superior and becomes the superior, unless the superior is an object |
| Jsmn.Parser.CloseContainer | VhomeBridge/main/linkNode/json_parser/jsmn.h:308-335 | a closing bracket closes the nearest open container of its kind and makes that one's parent the superior |
| Jsmn.Parser.CountChild | VhomeBridge/main/linkNode/json_parser/jsmn.h:366-370 | the superior of a leaf gains one child and nothing else changes |
| Jsmn.Parser.FillStep | VhomeBridge/main/linkNode/json_parser/jsmn.h:275-441 | one character of the main loop over a token array does the specification's step |
| Jsmn.Parser.Count | VhomeBridge/main/linkNode/json_parser/jsmn.h:268-453 | without a token array the parser counts as the specification does |
| Jsmn.Parser.Fill | VhomeBridge/main/linkNode/json_parser/jsmn.h:268-453 | over a token array the parser yields exactly the specification's tokens and their number, or its error |
| Forest.WalkUpIsAbove | VhomeBridge/main/linkNode/json_parser/jsmn.h:318-335 | the walk for a closing bracket ends on an ancestor-or-self of the last token |
| Forest.AddedUnderSup | VhomeBridge/main/linkNode/json_parser/jsmn.h:287-306 | a token added below the superior keeps preorder and child counts |
| Forest.ClosedUnderSup | VhomeBridge/main/linkNode/json_parser/jsmn.h:319-335 | closing a container leaves the superior an ancestor-or-self of the last token |
| Forest.StepKeepsInv | VhomeBridge/main/linkNode/json_parser/jsmn.h:275-441 | every step keeps: preorder, child counts, bracketed spans, and the superior none or an ancestor-or-self of the last token |
| Forest.RunIsForest | VhomeBridge/main/linkNode/json_parser/jsmn.h:275-453 | from any state with the invariant, an accepted run ends in a closed forest |
| Forest.AcceptedIsForest | VhomeBridge/main/linkNode/json_parser/jsmn.h:268-453 | whatever text is accepted, valid JSON or not: sizes are numbers of children, parents are ancestors-or-self of the token before, containers span from bracket to matching bracket, nothing is open |
| Forest.SpansNeedNotNest | VhomeBridge/main/linkNode/json_parser/jsmn.h:376-378 | `[]:[]` and `[]:]` are accepted, with the tokens that they give; when spans do nest is the next rows' matter |
| Nesting.StepKeepsSound | VhomeBridge/main/linkNode/json_parser/jsmn.h:275-441 | as long as no token begins while the superior is in a closed container, tokens stay inside the containers above them, and the scan of the text knows how many brackets are open and whether the superior is in a closed container |
| Nesting.BeginsOutside | VhomeBridge/main/linkNode/json_parser/jsmn.h:291-306 | a token that does begin then hangs below a container that has ended before it |
| Nesting.NestsIffTidy | VhomeBridge/main/linkNode/json_parser/jsmn.h:268-453 | for every accepted text, every token stands inside all containers above it if and only if no token begins after a colon that follows a closing bracket, before an open bracket is closed |
| Nesting.TwoRootsDoNotNest | VhomeBridge/main/linkNode/json_parser/jsmn.h:376-378 | `[]:[]` fails this condition, and its spans do not nest |
| Nesting.ValueNests | VhomeBridge/main/linkNode/json_parser/jsmn.h:282-335 | the tokens of every JSON value nest and stand within its text |
| Nesting.DocumentNests | VhomeBridge/main/linkNode/json_parser/jsmn.h:268-453 | the tokens of every JSON document nest, and every JSON text meets the condition |
| Navigate.ForestIsReadable | VhomeBridge/main/linkNode/json_parser/json_parser.c:26-31 | every token of a forest has its text within the document |
| Navigate.NeverAgain | VhomeBridge/main/linkNode/json_parser/json_parser.c:33-42 | in preorder, once a token hangs above another, nothing later hangs below that other one |
| Navigate.NextIsChild | VhomeBridge/main/linkNode/json_parser/json_parser.c:37-40 | while children are left to skip, the next token is one of them |
| Navigate.WalkNext | VhomeBridge/main/linkNode/json_parser/json_parser.c:37-40 | skipping one child's subtree brings the walk one child further |
| Navigate.WalkDone | VhomeBridge/main/linkNode/json_parser/json_parser.c:37-41 | after as many children as the token's size the walk is at the end of its subtree |
| Navigate.ChildrenAreInside | VhomeBridge/main/linkNode/json_parser/json_parser.c:112-117 | all children of a token stand between it and the end of its subtree |
| JsonParser.TwoPassIsRun | VhomeBridge/main/linkNode/json_parser/json_parser.c:370-391 | the two passes accept exactly what one filling pass with room enough accepts, with the same tokens |
| JsonParser.SmallerCap | VhomeBridge/main/linkNode/json_parser/jsmn.h:106-111 | room beyond the tokens needed makes no difference |
| JsonParser.TwoPassIsForest | VhomeBridge/main/linkNode/json_parser/json_parser.c:370-391 | a successful start of a parse yields a forest of as many tokens as were counted |
| JsonParser.TwoPassNeverLacks | VhomeBridge/main/linkNode/json_parser/json_parser.c:374-383 | the two passes together never report a lack of tokens |
| JsonParser.TokenMatches | VhomeBridge/main/linkNode/json_parser/json_parser.c:26-31 | comparing a prefix and then the lengths is comparing the texts |
| JsonParser.SkipElem | VhomeBridge/main/linkNode/json_parser/json_parser.c:33-42 | on every forest, skipping terminates inside the array on the last token of the subtree |
| JsonParser.Context.ParseStart | VhomeBridge/main/linkNode/json_parser/json_parser.c:370-391 | succeeds exactly when there is memory and the two passes yield at least one token; then the context holds those tokens, with the cursor on the first |
| JsonParser.Context.ObjSearch | VhomeBridge/main/linkNode/json_parser/json_parser.c:103-119 | the first child of the current object whose text is the key, or nothing |
| JsonParser.Context.ArrSearch | VhomeBridge/main/linkNode/json_parser/json_parser.c:261-275 | the child of the current array with this index, or nothing |
| JsonParser.Context.ObjGetValTok | VhomeBridge/main/linkNode/json_parser/json_parser.c:121-130 | the token behind the first key with this name, which is its value if it has one, if it is of the kind asked for |
| JsonParser.Context.ObjGetArray | VhomeBridge/main/linkNode/json_parser/json_parser.c:132-140 | moves to the named array and gives its size, or leaves the cursor |
| JsonParser.Context.ObjGetObject | VhomeBridge/main/linkNode/json_parser/json_parser.c:156-163 | moves to the named object, or leaves the cursor |
| JsonParser.Context.ObjLeave | VhomeBridge/main/linkNode/json_parser/json_parser.c:142-154 | moves to the key's object, two links up |
| JsonParser.Context.ObjGetString | VhomeBridge/main/linkNode/json_parser/json_parser.c:211-217 | copies the named string if it fits the buffer with its terminator |
| JsonParser.Context.ArrGet | VhomeBridge/main/linkNode/json_parser/json_parser.c:276-311 | moves to the element with this index if it has the kind asked for |
| JsonParser.Context.ArrLeave | VhomeBridge/main/linkNode/json_parser/json_parser.c:296-319 | moves to the array, one link up |
| JsonParser.NthOrNone | VhomeBridge/main/linkNode/json_parser/json_parser.c:264-267 | there is a child with this index exactly if the size is larger |
| JsonParser.KeyThenOther | VhomeBridge/main/linkNode/json_parser/json_parser.c:126-129 | the token after a key without a value is no value of it but hangs from the object upwards |
| JsonParser.KeyThenValue | VhomeBridge/main/linkNode/json_parser/json_parser.c:126-129 | the token after a key that has a value is that value |
| JsonParser.LeaveUndoesGet | VhomeBridge/main/linkNode/json_parser/json_parser.c:132-177 | after getting an element, leaving restores the cursor; after getting the value of a key it does if and only if the key has a value |
| JsonText.ScanLit | VhomeBridge/main/linkNode/json_parser/jsmn.h:143-165 | scanning a literal stops at the delimiter after it |
| JsonText.ScanStr | VhomeBridge/main/linkNode/json_parser/jsmn.h:203-260 | scanning any legal string text stops at its closing quote |
| JsonText.OverWs | VhomeBridge/main/linkNode/json_parser/jsmn.h:371-375 | whitespace only moves the position |
| JsonText.OverStr | VhomeBridge/main/linkNode/json_parser/jsmn.h:361-370 | a string adds its token and counts as a child |
| JsonText.OverLit | VhomeBridge/main/linkNode/json_parser/jsmn.h:399-433 | a literal in a value's place adds its token and counts as a child |
| JsonText.OverOpen | VhomeBridge/main/linkNode/json_parser/jsmn.h:282-307 | an opening bracket in a value's place opens a container |
| JsonText.OverClose | VhomeBridge/main/linkNode/json_parser/jsmn.h:308-335 | over closed tokens the closing bracket finds its container |
| JsonText.OverValue | VhomeBridge/main/linkNode/json_parser/jsmn.h:275-441 | from the start of a value's text the parser gets to its end, having added exactly the value's tokens |
| JsonText.OverElems | VhomeBridge/main/linkNode/json_parser/jsmn.h:275-441 | the same for the elements of an array, which all become its children |
| JsonText.OverMembers | VhomeBridge/main/linkNode/json_parser/jsmn.h:275-441 | the same for the members of an object: keys become children of the object, values of their keys |
| JsonText.ParseUndoesShow | VhomeBridge/main/linkNode/json_parser/jsmn.h:268-453 | for every JSON value, with any whitespace between tokens, parsing yields exactly its preorder listing with kinds, spans, sizes and parents; only a bare literal at the end of the text is refused |
| JsonText.BareLit | VhomeBridge/main/linkNode/json_parser/jsmn.h:166-170 | a literal that reaches the end of the text is reported as unfinished |
| JsonText.TwoPassUndoesShow | VhomeBridge/main/linkNode/json_parser/json_parser.c:370-391 | the same for the two passes, for every root that is an object, an array or a string |
| JsonText.NumbersAreLits | VhomeBridge/main/linkNode/json_parser/jsmn.h:399-412 | every JSON number and true, false and null are among the literals |
| Refusals.StringIff | VhomeBridge/main/linkNode/json_parser/jsmn.h:203-260 | a string is taken exactly if it consists of characters other than quote, zero and backslash, of the eight short escapes and of escapes with four hexadecimal digits |
| Refusals.StringFails | VhomeBridge/main/linkNode/json_parser/jsmn.h:253-262 | a string that the text ends in is unfinished, and any other escape is illegal |
| Refusals.BadDigit | VhomeBridge/main/linkNode/json_parser/jsmn.h:239-249 | an escape with another character among its four digits is illegal |
| Refusals.PrimitiveIff | VhomeBridge/main/linkNode/json_parser/jsmn.h:143-170 | a primitive ends at the first whitespace, comma or closing bracket, if only printable characters come before |
| Refusals.PrimitiveFails | VhomeBridge/main/linkNode/json_parser/jsmn.h:143-170 | a primitive that the text ends in is unfinished, and one with another character is illegal |
| Refusals.StepTakes | VhomeBridge/main/linkNode/json_parser/jsmn.h:275-441 | the main loop goes on exactly for: whitespace, colon and comma; a bracket or primitive where no key has to come; a primitive where the key has no value yet; the bracket of the nearest open container; a string or primitive of these forms |
| Refusals.NoKeyFirst | VhomeBridge/main/linkNode/json_parser/jsmn.h:291-298 | an object that begins with a bracket or a primitive is refused, whatever comes after |
| Refusals.NoKeyNext | VhomeBridge/main/linkNode/json_parser/jsmn.h:414-420 | so is one that goes on so after a comma |
| Refusals.NoSecondValue | VhomeBridge/main/linkNode/json_parser/jsmn.h:414-420 | a primitive after the value of a key is refused |
| Refusals.ArrayNeedsBracket | VhomeBridge/main/linkNode/json_parser/jsmn.h:319-323 | an array closed by a brace is refused |
| Refusals.ObjectNeedsBrace | VhomeBridge/main/linkNode/json_parser/jsmn.h:319-323 | an object closed by a square bracket is refused |
| Refusals.OneBracketTooMany | VhomeBridge/main/linkNode/json_parser/jsmn.h:328-331 | a closing bracket after any whole document is refused |
| Refusals.ArrayIsOpen | VhomeBridge/main/linkNode/json_parser/jsmn.h:443-450 | an array that is not closed is unfinished |
| Refusals.StrangeCharacter | VhomeBridge/main/linkNode/json_parser/jsmn.h:436-438 | a character that begins no token is refused |
| Refusals.TooFewTokens | VhomeBridge/main/linkNode/json_parser/jsmn.h:106-111 | with fewer tokens than an accepted text has, the filling pass reports the lack |
| Refusals.ZeroEndsText | VhomeBridge/main/linkNode/json_parser/jsmn.h:275 | a zero ends the text: what comes after a document and a zero makes no difference |
| Refusals.SampleParses | VhomeBridge/main/linkNode/json_parser/jsmn.h:268-453 | the tokens of one text with all the characters of structure, written out |
| Lookup.RootSits | VhomeBridge/main/linkNode/json_parser/json_parser.c:389 | the first token of a parsed document represents its root |
| Lookup.RepresentsKind | VhomeBridge/main/linkNode/json_parser/json_parser.c:127 | a token has the kind and parent of its value, an array's size is its number of elements and an object's its number of keys |
| Lookup.NthValueFound | VhomeBridge/main/linkNode/json_parser/json_parser.c:261-275 | searching an array for an index finds the value with that index |
| Lookup.NamedValueFound | VhomeBridge/main/linkNode/json_parser/json_parser.c:103-119 | searching an object for a name finds the first member with that name, or nothing if there is none |
| Lookup.ObjectKeysHaveValues | VhomeBridge/main/linkNode/json_parser/json_parser.c:121-130 | every key of an object of a document has exactly one value |
| Lookup.GetElement | VhomeBridge/main/linkNode/json_parser/json_parser.c:276-294 | getting an element gives the value with that index, for the right kind only |
| Lookup.GetMember | VhomeBridge/main/linkNode/json_parser/json_parser.c:121-163 | getting a member succeeds exactly if there is one with this name whose first is of this kind, and gives its value |
| Lookup.GetText | VhomeBridge/main/linkNode/json_parser/json_parser.c:94-101 | the text of a string token is the string |
| Lookup.TextOfValue | VhomeBridge/main/linkNode/json_parser/json_parser.c:94-101 | the text of any other token is that of its value, brackets included |
| HashMap.BucketIsMod | VhomeBridge/main/linkNode/map/map.c:44-48 | with a power of two of buckets the masked hash is the remainder |
| HashMap.HashIs | VhomeBridge/main/linkNode/map/map.c:21-27 | the hash starts at 5381; a further character multiplies it by 33, in 32 bits, and is combined with it |
| HashMap.DrainedHolds | VhomeBridge/main/linkNode/map/map.c:62-73 | the single chain holds exactly the nodes of the buckets, each once |
| HashMap.RefilledHolds | VhomeBridge/main/linkNode/map/map.c:80-88 | refilling puts every node of the chain into the bucket of its hash, and nothing else |
| HashMap.RefilledStandsFor | VhomeBridge/main/linkNode/map/map.c:58-92 | resizing to any number of buckets keeps the map that the nodes stand for |
| HashMap.RefilledHasKey | VhomeBridge/main/linkNode/map/map.c:58-92 | resizing loses no key |
| HashMap.WhereKeyIs | VhomeBridge/main/linkNode/map/map.c:95-108 | a key is in the bucket of its hash or nowhere |
| HashMap.Map.GetRef | VhomeBridge/main/linkNode/map/map.c:95-108 | finds the node with the key in its bucket and the link that leads to it, or there is none |
| HashMap.Map.FoundIsEntry | VhomeBridge/main/linkNode/map/map.c:127-130 | what is found is the map's entry, and nothing is found exactly for keys outside the map |
| HashMap.Map.Get | VhomeBridge/main/linkNode/map/map.c:127-130 | a get is a lookup in the map |
| HashMap.Map.AddNode | VhomeBridge/main/linkNode/map/map.c:51-55 | the node becomes the first of the bucket of its hash |
| HashMap.Map.Unchain | VhomeBridge/main/linkNode/map/map.c:66-72 | one bucket's nodes move to the front of the chain, reversed |
| HashMap.Map.DrainBucket | VhomeBridge/main/linkNode/map/map.c:65-73 | one more bucket is in the chain, those before it are untouched |
| HashMap.Map.Drain | VhomeBridge/main/linkNode/map/map.c:62-73 | all nodes end up in one chain |
| HashMap.Map.Refill | VhomeBridge/main/linkNode/map/map.c:80-88 | all nodes of the chain end up in the buckets of their hashes |
| HashMap.Map.Rebuild | VhomeBridge/main/linkNode/map/map.c:80-88 | clearing the buckets and putting the chain back keeps the map, with the old or the new bucket array |
| HashMap.Map.Resize | VhomeBridge/main/linkNode/map/map.c:58-92 | the map is unchanged whether or not the new array can be had; the number of buckets changes only if it can |
| HashMap.Map.MakeRoom | VhomeBridge/main/linkNode/map/map.c:145-149 | afterwards there is room for a node, the buckets having doubled from one on if there was none, or growing failed and the map is unchanged |
| HashMap.Map.Set | VhomeBridge/main/linkNode/map/map.c:133-156 | a key that is there has its storage begin with the value and go on as before, a new one is added, and a set whose allocation or growth fails leaves the map as it was; a text with its zero is then read back as that text |
| HashMap.Map.SetOld | VhomeBridge/main/linkNode/map/map.c:136-141 | the value of an existing key is overwritten in place |
| HashMap.Map.SetNew | VhomeBridge/main/linkNode/map/map.c:142-155 | a new key is added exactly if memory suffices; otherwise nothing changes |
| HashMap.Map.Replace | VhomeBridge/main/linkNode/map/map.c:139 | overwriting one node's value changes one entry |
| HashMap.Map.Insert | VhomeBridge/main/linkNode/map/map.c:150-151 | linking the new node adds its entry and counts it |
| HashMap.Map.Remove | VhomeBridge/main/linkNode/map/map.c:159-168 | the key is gone, all other entries stay, and the count fits |
| HashMap.Map.Drop | VhomeBridge/main/linkNode/map/map.c:162-167 | removing a node that is there takes out its entry |
| HashMap.Map.Unlink | VhomeBridge/main/linkNode/map/map.c:163-164 | the link that led to the node leads past it |
| HashMap.FlatIsMap | VhomeBridge/main/linkNode/map/map.c:179-193 | listing the nodes bucket by bucket gives every key of the map exactly once, and the count of nodes is the number of keys |
| HashMap.Iter.Next | VhomeBridge/main/linkNode/map/map.c:179-193 | each call gives the next key of that listing, and nothing after exactly as many keys as there are nodes |
| HashMap.AllKeys | VhomeBridge/main/linkNode/map/map.c:171-193 | going through an unchanged map gives exactly its keys, none twice, and as many as there are nodes |
| HashMap.Iter.Advance | VhomeBridge/main/linkNode/map/map.c:180-191 | to the next node of the bucket, or else to a later bucket |
| HashMap.Iter.NextBucket | VhomeBridge/main/linkNode/map/map.c:184-190 | empty buckets are skipped, starting from the unsigned -1 |
| Links.LinkMapKeys | VhomeBridge/main/linkNode/linkButton.c:62-102 | the map's keys are the ids of all buttons of the document |
| Links.LinkMapEntry | VhomeBridge/main/linkNode/linkButton.c:62-102 | what is stored for an id begins with the entry made where the id stands last |
| Links.NoOverrunIff | VhomeBridge/main/linkNode/linkButton.c:98 | no entry is copied over a shorter storage if and only if none is longer than the entry made where its id stood first |
| Links.OthersIsJoin | VhomeBridge/main/linkNode/linkButton.c:79-97 | the value is the ids of the other members, each followed by a space |
| Links.OtherIdsAre | VhomeBridge/main/linkNode/linkButton.c:80-97 | an id is among the others exactly if another member has it |
| Links.OtherIdsOnce | VhomeBridge/main/linkNode/linkButton.c:80-97 | with different ids none of the others comes twice |
| Links.OtherIdsAt | VhomeBridge/main/linkNode/linkButton.c:78-95 | the x-th other id is node id, protocol and endpoint of the x-th member but this one |
| Links.LinkDocIs | VhomeBridge/main/linkNode/linkButton.c:61-74 | what a document with groups is, by the names of its members |
| Links.SplitJoin | VhomeBridge/main/linkNode/linkButton.c:119-135 | splitting at spaces undoes joining ids that are not empty and have no spaces |
| Basics.CStringOf | VhomeBridge/main/linkNode/linkButton.c:116-117 | copying up to the terminating zero gives the whole value, whatever stands behind it |
| Links.TargetsAreOthers | VhomeBridge/main/linkNode/linkButton.c:114-135 | looking up an id and splitting gives the ids of the other members of the group in which it stands last, in order |
| Links.LinkedIff | VhomeBridge/main/linkNode/linkButton.c:61-137 | one id is linked to another if and only if that is the id of another member of the group in which the first stands last |
| Links.LinkedIffSameGroup | VhomeBridge/main/linkNode/linkButton.c:47-107 | with different ids, two are linked exactly if they belong to two members of one group |
| Links.LinkedIsSymmetric | VhomeBridge/main/linkNode/linkButton.c:47-107 | with different ids, being linked is symmetric and irreflexive |
| Links.TwoGroupsAreNot | VhomeBridge/main/linkNode/linkButton.c:98 | for a button in two groups it is not symmetric: it reaches the second group only, and a button of the first reaches it |
| LinkButton.ReadFields | VhomeBridge/main/linkNode/linkButton.c:66-74 | the three buffers hold the button of the object under the cursor |
| LinkButton.ReadMember | VhomeBridge/main/linkNode/linkButton.c:64-78 | one member is read, or passed over, and the cursor is back on the group |
| LinkButton.CollectOthers | VhomeBridge/main/linkNode/linkButton.c:79-97 | the value is that of the other members and fits its buffer; the cursor is back |
| LinkButton.StoreMember | VhomeBridge/main/linkNode/linkButton.c:64-99 | one member's entry is put into the map under its id, over an earlier one's storage if there is one; the cursor is back |
| LinkButton.StoreGroup | VhomeBridge/main/linkNode/linkButton.c:63-100 | all members of a group are added |
| LinkButton.ReadGroup | VhomeBridge/main/linkNode/linkButton.c:63-101 | one group of the document is added, anything that is no array is passed over |
| LinkButton.ReadGroups | VhomeBridge/main/linkNode/linkButton.c:62-102 | all groups are added and the cursor is back on the array |
| LinkButton.ReadLinks | VhomeBridge/main/linkNode/linkButton.c:61-104 | the nested loops build the map of the document and end with the cursor on the root |
| LinkButton.DocumentParses | VhomeBridge/main/linkNode/linkButton.c:52-55 | every document parses, and its first token represents the root |
| LinkButton.FindLink | VhomeBridge/main/linkNode/linkButton.c:61 | looking for "link" in the root finds the array of that name, if there is one |
| LinkButton.JsonParsing | VhomeBridge/main/linkNode/linkButton.c:47-107 | from the text of a link document to its map |
| LinkButton.MentionsBleIff | VhomeBridge/main/linkNode/linkButton.c:123 | the test finds "ble" exactly if the token contains it |
| LinkButton.RouteIs | VhomeBridge/main/linkNode/linkButton.c:123-134 | an id goes to the BLE queue exactly if it contains "ble", else to the Zigbee queue |
| LinkButton.StrTok | VhomeBridge/main/linkNode/linkButton.c:119-134 | each call gives the next token between spaces, until there is none |
| LinkButton.SendTokens | VhomeBridge/main/linkNode/linkButton.c:119-135 | every token is sent once, in order, to the BLE queue if it mentions "ble" and else to the Zigbee queue |
| LinkButton.SendIdButton | VhomeBridge/main/linkNode/linkButton.c:114-137 | for a key, exactly the tokens of its entry are sent, in order, to the BLE queue exactly if they contain "ble"; none if it has none |
| LinkButton.DocumentHasNoZero | VhomeBridge/main/linkNode/linkButton.c:78-94 | ids from a document that parsed hold no zero character, so that they are whole C strings |
| LinkButton.PressReachesGroup | VhomeBridge/main/linkNode/linkButton.c:47-141 | for every document: a button's key dispatches the ids of the other members of the group in which it stands last, in order, any other key nothing; with different ids dispatching is symmetric and irreflexive |
| LinkButton.Press | VhomeBridge/main/linkNode/linkButton.c:47-141 | from the text of a document and a key: for node id, protocol and endpoint of a button exactly those of the other members of the group in which it stands last are sent, in order, to the BLE queue exactly if they contain "ble"; for any other key nothing |
| MeshComposition.WordOfPut | VhomeBridge/main/BLE/ble_mesh.h:48 | a 16-bit number is read back from its two bytes |
| MeshComposition.ElementOfPut | VhomeBridge/main/BLE/ble_mesh.c:408-431 | an element is read back from its encoding, wherever it stands |
| MeshComposition.PutOfElement | VhomeBridge/main/BLE/ble_mesh.c:408-431 | encoding what was read gives the bytes read |
| MeshComposition.DecodeUndoesEncode | VhomeBridge/main/BLE/ble_mesh.c:407-433 | any list of elements is read back from its encoding |
| MeshComposition.EncodeUndoesDecode | VhomeBridge/main/BLE/ble_mesh.c:407-433 | data that hold whole elements are the encoding of those elements |
| MeshComposition.PageRoundTrip | VhomeBridge/main/BLE/ble_mesh.c:399-433 | the elements of a whole page are read back behind any header |
| MeshComposition.FlatOfElement | VhomeBridge/main/BLE/ble_mesh.c:415-431 | an element's models as the tables list them: SIG models with company 0xFFFF, then vendor models |
| MeshComposition.ElementBytes | VhomeBridge/main/BLE/ble_mesh.c:408-431 | an element byte by byte: location, the two numbers, SIG models of two bytes, vendor models of four with the company first, low bytes first |
| MeshComposition.StartsAre | VhomeBridge/main/BLE/ble_mesh.c:407-433 | the elements stand one behind the other from byte 10 to the end of the data |
| MeshComposition.Node.RowEntries | VhomeBridge/main/BLE/ble_mesh.c:415-432 | a row entry by entry: SIG models with 0xFFFF, vendor models with their company, then 0xFFFF |
| MeshComposition.Node.ParseSig | VhomeBridge/main/BLE/ble_mesh.c:415-422 | the SIG models fill the front of the row and no other row changes |
| MeshComposition.Node.ParseVendor | VhomeBridge/main/BLE/ble_mesh.c:423-432 | the vendor models follow, then the terminator |
| MeshComposition.Node.ParseElement | VhomeBridge/main/BLE/ble_mesh.c:408-432 | one element fills its row |
| MeshComposition.Node.ParseCompData | VhomeBridge/main/BLE/ble_mesh.c:390-436 | the tables hold exactly the elements of the data, entry by entry, SIG models with company 0xFFFF, each row ended by 0xFFFF, and their number |
| MeshComposition.TablesOf | VhomeBridge/main/BLE/ble_mesh.c:390-436 | from elements to tables: the page that encodes a node's elements, behind any header, fills the row of each of them and gives their number |
| MeshBind.AckDoes | VhomeBridge/main/BLE/ble_mesh.c:549-647 | the status of the outstanding request takes it off and sends the next one, across the ends of elements, or reports success |
| MeshBind.OtherDoes | VhomeBridge/main/BLE/ble_mesh.c:549-695 | any other status changes nothing, and a timeout repeats the outstanding request |
| MeshBind.StepDoes | VhomeBridge/main/BLE/ble_mesh.c:549-695 | one callback acts on the list of remaining requests as specified |
| MeshBind.RunDoes | VhomeBridge/main/BLE/ble_mesh.c:531-695 | every run refines the specification: same requests sent, same ones remaining |
| MeshBind.SentIsPrefix | VhomeBridge/main/BLE/ble_mesh.c:549-695 | repetitions left out, the requests sent are a prefix of those to do, and how long it is |
| MeshBind.LeftIsSubsequence | VhomeBridge/main/BLE/ble_mesh.c:550-552 | everything gets acknowledged exactly if the requests can be found in order among the statuses |
| MeshBind.TodoIsDistinct | VhomeBridge/main/BLE/ble_mesh.c:531-647 | no request of a composition whose elements list no model twice comes twice |
| MeshBind.EveryRunBindsInOrder | VhomeBridge/main/BLE/ble_mesh.c:531-695 | under any mix of statuses and timeouts, the distinct requests are a prefix of the flattened composition, and success is reported exactly when all of it has been acknowledged in order; the flattened composition is, element by element, the SIG models with company 0xFFFF and then the vendor models, each at the element's address |
| MeshBind.BindableIs | VhomeBridge/main/BLE/ble_mesh.c:531-647 | the compositions that the driver goes through: one to eight elements, each with one to 23 models, none of them with id 0xFFFF |
| MeshBind.AllAt | VhomeBridge/main/BLE/ble_mesh.c:549-647 | the request at each place of the flattened composition |
| MeshBind.Driver.Drive | VhomeBridge/main/BLE/ble_mesh.c:531-695 | the code run over any callbacks does the specification's run |
| MeshBind.Provision | VhomeBridge/main/BLE/ble_mesh.c:390-695 | from the bytes of the composition data and any callbacks to the requests sent and whether success is reported |
| MeshBind.Driver.OnAppKeyAdd | VhomeBridge/main/BLE/ble_mesh.c:531-548 | the first model of the first element is requested |
| MeshBind.Driver.OnStatus | VhomeBridge/main/BLE/ble_mesh.c:549-647 | the code's handling of a status is the specification's step |
| MeshBind.Driver.OnTimeout | VhomeBridge/main/BLE/ble_mesh.c:683-695 | the code's handling of a timeout is the specification's step |
| WebSocket.MaskedTwice | VhomeBridge/main/webSocket/websocket.c:57-63 | masking twice with one key gives the message back |
| WebSocket.BigEndianEight | VhomeBridge/main/webSocket/websocket.c:114-125 | the eight shifted bytes are the length, most significant first |
| WebSocket.LengthUndone | VhomeBridge/main/webSocket/websocket.c:173-188 | in all three forms the length is read back |
| WebSocket.HeaderBytes | VhomeBridge/main/webSocket/websocket.c:81-131 | the header byte by byte: final bit and opcode, mask bit and the shortest of the three forms of the length, the length, the key |
| WebSocket.ParsedBytes | VhomeBridge/main/webSocket/websocket.c:164-193 | what is read of a header, byte by byte |
| WebSocket.HeaderUndone | VhomeBridge/main/webSocket/websocket.c:169-193 | the header is read back from any chunk that holds it, whatever follows |
| WebSocket.AssembleAll | VhomeBridge/main/webSocket/websocket.c:202-233 | pieces that add up to the length are put together exactly, and no more are taken |
| WebSocket.ReadUndoesSend | VhomeBridge/main/webSocket/websocket.c:144-280 | however a frame is cut into chunks of which the first holds the header, reading gives message, length, opcode and key back and takes exactly its chunks |
| WebSocket.ReadIs | VhomeBridge/main/webSocket/websocket.c:144-280 | for every cut of a frame and anything after it, header in the first chunk: a read takes as many chunks as hold the frame, and returns the message exactly if that is one or the frame ends with the last |
| WebSocket.ReadsBackIff | VhomeBridge/main/webSocket/websocket.c:144-280 | a read returns the message and leaves what follows if and only if the frame ends with a chunk |
| WebSocket.RestOfChunkIsLost | VhomeBridge/main/webSocket/websocket.c:202-206 | what follows a frame within its only chunk is dropped |
| WebSocket.OverrunLosesFrame | VhomeBridge/main/webSocket/websocket.c:216-223 | if the second chunk holds the rest of a frame and more, both chunks are taken and nothing is returned |
| WebSocket.AssembleIs | VhomeBridge/main/webSocket/websocket.c:206-233 | the loop takes as many chunks as it needs and fails exactly if they hold more |
| WebSocket.ReadGoesByLength | VhomeBridge/main/webSocket/websocket.c:202-233 | whatever the chunks hold behind the first header: a read runs out exactly if they are shorter than the frame announced; otherwise it takes the least number of chunks that are as long, and it fails exactly if these are several and longer |
| WebSocket.MessageBytes | VhomeBridge/main/webSocket/websocket.c:202-236 | the message are the bytes behind the header, each combined with its byte of the key by xor if there is one |
| WebSocket.Client.KeepFragment | VhomeBridge/main/webSocket/websocket.c:238-275 | a first text or binary fragment (opcodes 1 and 2) is kept; of a continuation (opcode 0) only the length is, in memory of arbitrary contents; anything else is ignored |
| WebSocket.EncryptDecrypt | VhomeBridge/main/webSocket/websocket.c:57-63 | each byte is combined with its byte of the key by xor, or nothing changes without a key; bytes behind the message stay |
| WebSocket.PutLength | VhomeBridge/main/webSocket/websocket.c:108-125 | the extended length stands behind the two fixed bytes |
| WebSocket.PutHeader | VhomeBridge/main/webSocket/websocket.c:105-131 | the buffer starts with the frame's header |
| WebSocket.Build | VhomeBridge/main/webSocket/websocket.c:65-137 | the packet built byte by byte is the frame |
| WebSocket.Send | VhomeBridge/main/webSocket/websocket.c:65-142 | exactly one packet is written, the frame of the message: 128 plus the opcode, the mask bit and the shortest form of the length, the key, and the message with each byte combined with its byte of the key |
| WebSocket.Client.GetRest | VhomeBridge/main/webSocket/websocket.c:206-233 | the rest of the message is fetched over whatever the first copy left in the buffer; running out or overrunning ends the read |
| WebSocket.Client.Take | VhomeBridge/main/webSocket/websocket.c:195-280 | once the first chunk has come: chunks taken, message or fragment, events used up |
| WebSocket.Client.Read | VhomeBridge/main/webSocket/websocket.c:144-280 | an event used up is taken off; otherwise a read takes chunks as specified, returns the message if the frame is final, byte by byte that of the chunks combined with the key, and keeps it as a fragment if not, and notes how many further events it has used up, none if it fails |
| WebSocketServer.StepAccounts | VhomeBridge/main/webSocket/websocket_server.c:84-96 | an act keeps events and chunks in step if and only if it is not a read that needs several chunks which are longer than the frame announced, and that one leaves an event for each of them but the first; a read that would start on a chunk without its whole header is no act |
| WebSocketServer.EveryRunAccounts | VhomeBridge/main/webSocket/websocket_server.c:84-96 | on every run: queued events are received chunks, events used up and those left behind by overruns; they stay in step if and only if no read needs several chunks which are longer than the frame announced, and then no read waits for its first chunk |
| WebSocketServer.OverrunLeavesEvent | VhomeBridge/main/webSocket/websocket_server.c:84-96 | two chunks that hold a frame and something after it leave one event for which there is no chunk, and no message |
| WebSocketServer.NextRead | VhomeBridge/main/webSocket/websocket_server.c:29-35 | a read at the start of a frame returns its message and takes its chunks |
| WebSocketServer.StepKeepsInv | VhomeBridge/main/webSocket/websocket_server.c:84-96 | in streams whose frames begin chunks, arrivals and handled events keep what was delivered a prefix of what was sent and what is left the chunks of the rest |
| WebSocketServer.EveryRunDelivers | VhomeBridge/main/webSocket/websocket_server.c:84-96 | on every run over such a stream no read waits for its first chunk, none fails, messages are delivered in order, and all of them once nothing is left |
| WebSocketServer.RunsEnd | VhomeBridge/main/webSocket/websocket_server.c:84-96 | a run makes at most two steps for each chunk, so it ends |
| WebSocketServer.ReadStops | VhomeBridge/main/webSocket/websocket.c:206-233 | a read that returns does not depend on the chunks after its own |
| WebSocketServer.Server.Callback | VhomeBridge/main/webSocket/websocket_server.c:15-23 | an arriving chunk queues one event |
| WebSocketServer.Server.Dispatch | VhomeBridge/main/webSocket/websocket_server.c:84-96 | taking an event and reading is the specification's step |
| Crc.Crc16Ccitt | VhomeBridge/main/Zigbee/fota.c:35-53 | the loop over the buffer computes the CRC |
| Crc.QuotientBits | VhomeBridge/main/Zigbee/fota.c:43-45 | which quotient bits a byte adds |
| Crc.StepBits | VhomeBridge/main/Zigbee/fota.c:43-47 | the accumulator after a byte, bit by bit: shifted by eight, with the generator subtracted for each quotient bit |
| Crc.CrcDivides | VhomeBridge/main/Zigbee/fota.c:35-53 | message times x^16 is quotient times generator plus CRC, coefficient by coefficient |
| Crc.DivisionIsUnique | VhomeBridge/main/Zigbee/fota.c:35-53 | there is one quotient and one remainder |
| Crc.CrcIsRemainder | VhomeBridge/main/Zigbee/fota.c:35-53 | a word is the CRC of a buffer if and only if it is the remainder of polynomial division |
| Crc.StepShiftsOut | VhomeBridge/main/Zigbee/fota.c:43-47 | a byte shifts the accumulator without a remainder exactly if it is its high byte |
| Crc.OwnCrcGivesZero | VhomeBridge/main/Zigbee/fota.c:69-71 | two bytes after a buffer make its CRC zero exactly if they are its CRC, high byte first |
| Xmodem.PacketCount | VhomeBridge/main/Zigbee/fota.c:151-170 | an image of n bytes takes n/128 packets, rounded up |
| Xmodem.PacketAt | VhomeBridge/main/Zigbee/fota.c:151-170 | the k-th packet holds the image from byte 128 k on, zeros only after its end, and its number goes up modulo 256 |
| Xmodem.ImageBytes | VhomeBridge/main/Zigbee/fota.c:55-76 | packet k byte by byte: 1, number, complement, bytes of the image from 128 k on and zeros behind its end, CRC with the high byte first |
| Xmodem.TransmissionBytes | VhomeBridge/main/Zigbee/fota.c:149-171 | all packets of a transmission so, and the last: 4, the next number, its complement, zeros, CRC |
| Xmodem.PacketIsAccepted | VhomeBridge/main/Zigbee/fota.c:60-71 | a packet passes a receiver's checks of number, complement and CRC |
| Xmodem.ReceiveUndoesSend | VhomeBridge/main/Zigbee/fota.c:149-171 | a receiver of the transmission gets the image, zero-padded only at the end to a multiple of 128 |
| Xmodem.NextInBlock | VhomeBridge/main/Zigbee/fota.c:154-167 | within a block the inner loop sends the image's next packet; block borders are packet borders |
| Xmodem.Sender.Fill | VhomeBridge/main/Zigbee/fota.c:66-67 | the payload is the data with zeros behind, or all zeros |
| Xmodem.Sender.Transmit | VhomeBridge/main/Zigbee/fota.c:55-76 | one packet goes out and the static number goes up by one modulo 256; it begins with its header, number and complement, and is zero behind the data |
| Xmodem.Sender.Fread | VhomeBridge/main/Zigbee/fota.c:152 | the buffer holds the next block of the file |
| Xmodem.Sender.SendBlock | VhomeBridge/main/Zigbee/fota.c:154-167 | the packets of the image from here on are those sent for the block and those from its end on |
| Xmodem.Sender.SendImage | VhomeBridge/main/Zigbee/fota.c:149-171 | the packets of the whole image go out, then one end-of-transmission packet with the number after theirs; every byte of them is given |
| Xmodem.Transfer | VhomeBridge/main/Zigbee/fota.c:149-171 | from the file to the receiver: of what a new sender sends, every packet is taken, and the file comes out, followed by fewer than 128 zeros up to a multiple of 128 |
| Button.LevelIsDebounced | VhomeBridge/managed_components/espressif__button/iot_button.c:73-81 | the level is the value of the last DEBOUNCE_TICKS equal samples in a row, the released level before |
| Button.GlitchIsIgnored | VhomeBridge/managed_components/espressif__button/iot_button.c:73-81 | a disturbance of fewer samples than that never changes a settled level, nor the released one at the start |
| Button.EightIsDeaf | VhomeBridge/managed_components/espressif__button/iot_button.c:75-78 | with eight or more ticks nothing is ever reported |
| Button.ReportsIff | VhomeBridge/managed_components/espressif__button/iot_button.c:55 | a button can report something if and only if at most seven ticks are configured |
| Button.SwitchTracks | VhomeBridge/managed_components/espressif__button/iot_button.c:84-155 | every transition's events are allowed after those before it, and the state still says what they say |
| Button.RunTracks | VhomeBridge/managed_components/espressif__button/iot_button.c:64-156 | the same over every run |
| Button.EveryRunIsLegal | VhomeBridge/managed_components/espressif__button/iot_button.c:64-156 | a long press starts at most once per press and only for the first of a burst, is held only after that and before the release, and a click follows a release that ends a burst of one or two presses modulo 256 |
| Button.EveryRunAlternates | VhomeBridge/managed_components/espressif__button/iot_button.c:64-156 | presses and releases strictly alternate, beginning with a press |
| Button.RunTimes | VhomeBridge/managed_components/espressif__button/iot_button.c:68-71 | the tick counter is the time since the debounced level changed, in 16 bits |
| Button.LongPressComesOnTime | VhomeBridge/managed_components/espressif__button/iot_button.c:104-108 | a long press starts exactly when the first press of a burst has lasted LONG_TICKS + 1 samples, if the 16-bit counter gets there |
| Button.RunPauses | VhomeBridge/managed_components/espressif__button/iot_button.c:98-142 | a burst waits for another press exactly if its last event is a release, its last press was not long, the pause is at most SHORT_TICKS, and it has one press or its last one was shorter than SHORT_TICKS modulo 65536 |
| Button.ClickComesOnTime | VhomeBridge/managed_components/espressif__button/iot_button.c:119-128 | a click comes exactly when a burst that waits, of one or two presses modulo 256, has been released for SHORT_TICKS + 1 samples, if the 16-bit counter gets there |
| Button.EdgesAreReported | VhomeBridge/managed_components/espressif__button/iot_button.c:84-155 | presses and releases are reported exactly at the edges of the debounced level, a press as a repeated one exactly if a burst was waiting, and holding at every sample of a long press |
| Button.Button.Handler | VhomeBridge/managed_components/espressif__button/iot_button.c:64-156 | the code does the specification's step and makes its callbacks, in order |

## Left out

- Jsmn.Parser.Fill: positions and counts are unbounded, where the code has 32-bit ones; texts of 2^31 characters do not fit the target's memory.
- JsonParser.Context.ObjGetValTok: requires that the key found is not the last token of all; the code would look behind the array. The same holds for the getters that use it.
- JsonParser.Context: the getters for numbers, booleans and nested texts, which are calls of the C library or copies of the getters modelled.
- HashMap.Map.Set: does not model replacing a value by a longer one, which would write beyond the node; `Links.NoOverrunIff` says which documents do not lead to that. The number of buckets is unbounded, where the code has an int.
- HashMap.Map: `map_deinit_`, which frees every node, is not modelled; freeing has no counterpart in the model.
- LinkButton.JsonParsing: requires a text that parses, fields that are there and fit their buffers, and entries that fit where their ids stood first. Without them the code goes on with a null cursor, with stale buffers, or writes beyond a node. Memory for the tokens and the map is taken to suffice.
- LinkButton.SendIdButton: full queues, whose items the code drops with a message, are not modelled.
- MeshComposition.Node.ParseCompData: requires whole elements that fit the eight rows of 24 slots with their terminators, and so does `TablesOf`; the code does not check this.
- MeshBind.EveryRunBindsInOrder: requires elements with at least one model, no model id 0xFFFF and no model twice in an element; sending does not fail, the key is added once, and one node is provisioned at a time, as the code has one set of static variables.
- WebSocket.Client.Read: the first chunk is required to hold the whole header, as the code takes for granted; that a chunk has no data pointer at all is not modelled. That fragments make up a message (section 5.4 of RFC 6455) is not stated, as the code does not put them together.
- WebSocket.Send: the message and its header are required to fit 32 bits, to which the code cuts the sizes it allocates; allocation succeeds.
- WebSocketServer.EveryRunAccounts: reads that start on a chunk without its whole header are no acts of a run, as the code looks behind such a chunk.
- WebSocketServer.Server.Dispatch: one client, with memory for its messages; what the callbacks do with a message, answering a ping, and closing are not modelled, so streams hold no close frame.
- WebSocketServer: the functions that select clients by URL, the handshake, and the mutex.
- Xmodem.Sender.SendImage: waiting for acknowledgements, retransmission and the download are not modelled; a missing acknowledgement makes the code wait for ever.
- Button.Button.Handler: the timer and the list of buttons are not modelled, each button being handled by itself.
- Non-strict tokenising and tokenising without parent links, which are not compiled.
- Queues, tasks, GPIO, LED, Wi-Fi, HTTP, SPIFFS, OTA, MQTT, AES, sensor callbacks, TLS and the library wrappers.
- Backoff, the analogue buttons, URL decoding and the hexadecimal helpers: only easy members.
