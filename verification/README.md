# IoT edge driver SDK: a verified model

The SDK lets a driver process connect sub-devices to an edge gateway over NATS. This project models
the parts of its C code in which state, pointers or arithmetic make mistakes easy, and proves what
they are for.

* **Requests and replies.** Synchronous calls (login, logout, dynamic registration, topology) put an
  entry into a shared list, publish, poll the entry, decide and remove it, while a callback thread
  stores replies by request id. `Correlation` is the transition system of any number of such calls in
  any interleaving. `CorrelationLaws` proves what holds whatever the ids are, `CorrelationFresh` what
  holds when no id is taken that an outstanding call has, and `CorrelationCollisions` exactly when
  replies and removals still meet their call otherwise. `RequestTable` carries the steps out on the
  actual linked list, and `CallTraces` ties what a call sees in a run to the code's control flow.
* **Device lifecycle.** Asynchronous login and logout, and the list of connected devices that
  messages are looked up in by serial prefix: the state machine in `Lifecycle`, the code on the list
  in `DeviceTable`, and the status report that walks the list from its tail in `StatusSync`, with a reader that gets
  the devices back from it in `StatusReader`.
* **Two linked lists.** The null-terminated list (`UtilsList`, with its locked wrappers in
  `SharedLists`) and the intrusive ring (`LiteList`, `LiteListOps`) are classes whose methods rewrite
  the pointers as the C code does; a ghost sequence of nodes is their meaning.
* **Base64.** `Base64` is the codec as functions, `Base64Laws` its laws, `Base64Tables` the agreement
  with the two tables, `Base64Codec` and `Base64Decoder` the loops over buffers, `NatsMessages` the
  messages built on them.
* **Replacement of substrings.** `Words` is leftmost, non-overlapping replacement on words, with its
  exact inverse theorem; `CStrings` is the code over buffers with a NUL; `RrpcTopics`, `LogText` and
  `TextBuffers` are its two uses.

`Common` and `Arithmetic` hold what several modules share.

A loop or an operation that changes memory is a method proved against a function; the laws are lemmas
about the functions. Statements are about all inputs, all runs or all reachable states. Where the
code does not keep a promise on all of them, an if-and-only-if says when it does, and a concrete
case shows the failure.

Assumptions: memory allocation succeeds; each operation on a shared list is atomic under its mutex;
the look-up of a request and the copying of the reply into it are taken as one step although the code
releases the mutex in between (edge/common.c:36, edge/edge.c:377-384); buffers are as large as the
preconditions say. Whether `char` is signed is a parameter. Text is a sequence of characters, data a
sequence of bytes.

## Model

| member | source | states |
|---|---|---|
| Words.FirstMatchIsLeast | edge/client.c:459 | the search finds an occurrence whenever there is one, and no occurrence lies before the one it finds |
| Words.ReplaceLength | edge/client.c:466-490 | the rewritten text is longer by (length of the new word minus length of the old) times the number of matches |
| Words.SplitAtBlock | edge/client.c:466-490 | around a block of an unbordered pattern, the texts before and behind it are rewritten, and counted, independently |
| Words.CountAfterReplace | edge/client.c:454-490 | the rewritten text contains the new, unbordered word once per match and once per stray copy that stood between matches |
| Words.InverseIff | edge/client.c:466-490 | replacing `a` by an unbordered `b` and back restores the text if and only if `a` is `b` or no `b` stood in the pieces between the matches of `a` |
| Words.AbsentNotStray | edge/client.c:466-490 | a text in which `b` does not occur has no stray `b`, so the inverse theorem applies |
| Words.ContainedNotStray | edge/client.c:466-490 | if `b` contains `a`, no text at all has a stray `b` |
| Words.LosslessIff | edge/client.c:466-490 | replacing by an unbordered `b` can be undone on every text if and only if `b` contains `a` |
| Words.ReplacedIsGone | edge/client.c:466-490 | after a replacement by a word that cannot overlap the pattern, the pattern occurs nowhere, not even across seams |
| CStrings.StrCpy | edge/client.c:473 | copying a C string writes its text and the NUL and leaves all else alone |
| CStrings.RoundsOf | edge/client.c:478-488 | for every text there is a sequence of copy rounds, as many as there are matches, never beyond the length of the result, that ends in the rewritten text |
| CStrings.CountString | edge/client.c:454-464 | the counting loop terminates and returns the number of leftmost non-overlapping matches |
| CStrings.ReplaceStr | edge/client.c:466-490 | the buffer holds exactly the rewritten text and its NUL, nothing behind is written, the loop runs once per counted match, and the shortcut for no match agrees with the loop |
| CStrings.CopyRound | edge/client.c:480-485 | one round appends the piece before the match and the new word |
| RrpcTopics.RequestTopicIff | edge/client.c:557-563 | the check accepts exactly the topics that contain "/rrpc/request/" |
| RrpcTopics.ResponseIsNotRequest | edge/client.c:557-570 | no response topic contains "request", none is accepted as a request topic, and rewriting one again changes nothing |
| RrpcTopics.ResponseTopicShape | edge/client.c:566-570 | the topic u/rrpc/request/v is answered on u'/rrpc/response/v' with u' and v' rewritten in the same way |
| RrpcTopics.AcceptedTopicIsAnswered | edge/client.c:557-570 | every topic the check accepts is rewritten to one that contains "/rrpc/response/" |
| RrpcTopics.RequestRecovered | edge/client.c:566-570 | the request topic is recovered from the response topic if and only if it had no "response" between its "request"s |
| TextBuffers.RrpcResponseTopic | edge/client.c:566-571 | the 128-byte buffer that is published on holds the response topic; an accepted topic gets the response mark, and no result is itself accepted |
| TextBuffers.ResponseTopicFitsIff | edge/client.c:569-570 | the response topic fits that buffer if and only if the topic's length plus its number of "request"s is at most 127 |
| TextBuffers.EscapedFitsIff | edge/client.c:541-545 | an escaped message fits the 2048-byte buffer if and only if the message, cut to 2047 characters, is at most 2047 long counting its quotation marks twice; a message that fills the cut fits only without any |
| TextBuffers.EscapeMessage | edge/client.c:506-545 | the message is cut and escaped into the buffer, and it is a valid JSON string body exactly for loggable messages |
| LogText.ValidBodyIff | edge/client.c:543-546 | the strings taken as valid are exactly the sequences of the characters of section 7 of RFC 8259: unescaped ones, two-character escapes, and \u with four hexadecimal digits |
| LogText.LogBodyValidIff | edge/client.c:543-546 | the escaped message is a string body of section 7 of RFC 8259 if and only if its backslashes already form escapes other than that of a quotation mark and it has no control character |
| LogText.PlainIsLoggable | edge/client.c:543-546 | a message without backslashes and control characters is loggable |
| LogText.EscapedQuoteNotLoggable | edge/client.c:543-546 | a message with an escaped quotation mark behind any loggable text, and before anything, yields a record that is not valid JSON |
| LogText.EscapeIsLossless | edge/client.c:545 | undoing the escapes gives back every message, with whatever backslashes |
| LogText.EscapedLength | edge/client.c:545 | the escaped message has one more character per quotation mark |
| Base64.TablesInverse | edge/common.c:68-103 | the two tables undo each other on the 64 digits |
| Base64Tables.AlphabetIsTable | edge/common.c:68-78 | every entry of the encoding table is the modelled one, and the rows cover all 64 |
| Base64Tables.SuffixMapIsTable | edge/common.c:81-103 | every entry of the 256-entry decoding table is the modelled one |
| Base64Codec.AlphabetIndexInTableIff | edge/common.c:130-131 | the first index of a group, a quarter of the promoted byte, lies in the table if and only if `char` is unsigned or the byte is below 128 |
| Base64Codec.EncodableIff | edge/common.c:129-131 | encoding stays inside the table if and only if `char` is unsigned or the first byte of every group is below 128 |
| Base64Codec.SuffixIndexInTableIff | edge/common.c:174 | the promoted character, converted to unsigned, indexes the decoding table, and its own entry, if and only if `char` is unsigned or the character is below 128 |
| Base64Codec.DecodableIff | edge/common.c:172-175 | decoding a text stays inside the table if and only if `char` is unsigned or every character up to the first unknown one is below 128 |
| Base64Codec.MovedBits | edge/common.c:105-109 | which bits of a byte the 8-bit shifts pick out |
| Base64Codec.ShiftedDigits | edge/common.c:130-150 | the shifts yield the four 6-bit digits of the 24 bits of a group |
| Base64Codec.NextQuadShifts | edge/common.c:130-150 | each character of a group, padded or not, is the one the shifts of the loop body select |
| Base64Codec.EncodedIsDecodable | edge/common.c:159-188 | encoded text is safe to decode whether `char` is signed or not |
| Base64Codec.EncodeTurn | edge/common.c:129-154 | one turn reads no byte past the data and appends the four characters of the group |
| Base64Codec.Base64Encode | edge/common.c:111-156 | no data gives -1 and no write; otherwise exactly the 4*ceil(n/3) characters of the encoding are written |
| Base64Decoder.DecodedPart | edge/common.c:178-186 | symbols of an incomplete last quad write nothing |
| Base64Decoder.DecoderComplete | edge/common.c:174-185 | the fourth symbol moves the accumulator's quad to the output, cut by all paddings seen so far |
| Base64Decoder.WriteQuad | edge/common.c:180-182 | a completed quad writes one byte and two more according to the paddings |
| Base64Decoder.Base64Decode | edge/common.c:159-188 | for every C string and length the loop returns the specified result or error, writes the specified bytes, and nothing else |
| Base64Laws.DecodeEncode | edge/common.c:111-188 | decoding the encoding of nonempty data returns their length and writes the data |
| Base64Laws.EncodeCanonical | edge/common.c:111-156 | the encoding is canonical in the sense of section 3.5 of RFC 4648 |
| Base64Laws.EncodeDecode | edge/common.c:111-188 | encoding what a canonical text decodes to restores it, and its decoder result is three bytes per quad less the paddings |
| Base64Laws.RestoredIffCanonical | edge/common.c:111-188 | a nonempty text is restored by decoding and encoding if and only if it is canonical |
| Base64Laws.EncodeBijective | edge/common.c:111-188 | encoding is injective into, and onto, the canonical texts |
| Base64Laws.QuadBytesAre | edge/common.c:180-182 | whatever paddings were seen, a quad writes the first bytes of the three whose 24 bits are its digits |
| Base64Laws.EveryQuad | edge/common.c:172-185 | in any text, wherever its '=' stand, every quad writes the first of the three bytes that its digits make: three while the text has had no '=', two after one, one after more |
| Base64Laws.DecodedBounds | edge/common.c:179-184 | q completed quads write between q and 3q bytes |
| Base64Laws.DecodeResultIs | edge/common.c:159-188 | -2 means exactly a positive length not divisible by four; -1 exactly no length or an unknown character; otherwise the result is the number of bytes written |
| Base64Laws.DecodeResultBounds | edge/common.c:159-188 | for any text of a positive multiple of four characters the result is -1 exactly if a character is unknown, else between q and 3q |
| Base64Laws.StripUnobservableIff | edge/common.c:170-187 | removing spaces, carriage returns and line feeds changes neither result nor output if and only if a positive multiple of four characters is left |
| NatsMessages.DeliveredIff | edge/client.c:86-102 | the handler receives the published bytes and their number exactly for nonempty payloads; the empty one arrives as nothing with length -1 |
| NatsMessages.FitsIff | edge/common.h:35 | the text and its NUL fit the 2048-byte buffer exactly for at most 1533 bytes |
| NatsMessages.DecodedFitsIff | edge/edge.c:432-439 | all texts of n characters decode within the buffer if and only if n is not a multiple of four or is at most 2731 |
| NatsMessages.NatsPublish | edge/client.c:86-102 | the C string handed to the library is the encoding of the data, and the library's status is returned |
| NatsMessages.OnNatsMessage | edge/edge.c:428-447 | the buffer and length given to the handler are the decoded message, with zeros behind it |
| UtilsList.FirstIndex | utils/utils_list.c:154-180 | the first position that matches: it does, and none before it does |
| UtilsList.BridgedLinked | utils/utils_list.c:218-220 | bridging a node's neighbours links the remaining nodes in order |
| UtilsList.ListNode.constructor | utils/utils_list.c:278-289 | a new node stands alone |
| UtilsList.ListIterator.constructor | utils/utils_list.c:242-252 | an iterator starts at the given node |
| UtilsList.ListIterator.Next | utils/utils_list.c:257-264 | one step: the node at the iterator's position in its direction's order, after which it stands before the following one, or NULL at the end |
| UtilsList.List.constructor | utils/utils_list.c:25-38 | a new list is well formed and empty, without callbacks |
| UtilsList.List.Rpush | utils/utils_list.c:64-82 | the node becomes the last; NULL changes nothing; the shape is kept |
| UtilsList.List.Lpush | utils/utils_list.c:131-149 | the node becomes the first; NULL changes nothing; the shape is kept |
| UtilsList.List.Rpop | utils/utils_list.c:87-104 | the last node is taken off and unlinked, or NULL if there is none; the shape is kept |
| UtilsList.List.Lpop | utils/utils_list.c:109-126 | the first node is taken off and unlinked, or NULL if there is none; the shape is kept |
| UtilsList.List.NewIterator | utils/utils_list.c:233-237 | the iterator stands before the first node of its direction |
| UtilsList.List.Walk | utils/utils_list.c:233-264 | a whole walk visits the nodes in order from the head, and in exactly the reverse order from the tail |
| UtilsList.List.Find | utils/utils_list.c:154-180 | the result is the first node, from the head, that matches, or NULL |
| UtilsList.List.NodeAt | utils/utils_list.c:185-211 | index i, and i minus the length, give the i-th node; any other index gives NULL |
| UtilsList.List.Unlink | utils/utils_list.c:218-220 | the neighbours, or the ends of the list, point past the node |
| UtilsList.List.Remove | utils/utils_list.c:216-228 | exactly that node leaves, the order of the rest and the shape are kept, and its value is freed if there is a callback |
| UtilsList.List.Destroy | utils/utils_list.c:43-59 | every node, and every value if there is a callback, is freed once and in order, and in the recorded uses no node is read or freed after it was freed |
| SharedLists.AddToList | edge/common.c:14-29 | the value is appended in a new node |
| SharedLists.FindInList | edge/common.c:31-45 | the first matching node, and NULL exactly if none matches |
| SharedLists.RemoveFromList | edge/common.c:47-65 | exactly the first matching node goes and its value is freed; without a match nothing changes and the status is an error |
| SharedLists.RemoveFirstTakesOne | edge/common.c:47-65 | of the values, one match goes and the others keep their order, or there is no match and all stay |
| SharedLists.FindByKey | edge/edge.c:463-472 | a list whose callback compares keys is searched as the list of the keys |
| LiteList.Entry.constructor | utils/lite-list.h:55-59 | an initialised entry is self-looped |
| LiteList.RotateRing | utils/lite-list.h:67-75 | a ring can be seen from any of its entries |
| LiteList.AddBetween | utils/lite-list.h:67-75 | the four writes insert an entry between last and first, also when these are the same entry |
| LiteList.ListAdd | utils/lite-list.h:85-88 | the entry becomes the first of the list; an entry added behind itself is left self-looped |
| LiteList.ListAddTail | utils/lite-list.h:99-102 | the entry becomes the last of the list; an entry added before itself keeps its backward pointer |
| LiteList.ListDel | utils/lite-list.h:111-131 | the others form a ring in their order; the entry keeps its own pointers |
| LiteList.ListDelInit | utils/lite-list.h:160-164 | the others form a ring in their order, and so does the entry alone |
| LiteList.ListReplace | utils/lite-list.h:140-147 | the new entry stands where the old one stood; for a self-looped old one the aliased writes leave the new one self-looped |
| LiteList.ListReplaceInit | utils/lite-list.h:149-154 | as for replacement, and the old entry is self-looped |
| LiteList.ListMove | utils/lite-list.h:171-175 | the entry becomes the first behind the head, whether it was in that ring, next to the head, alone or in another ring, which stays well formed; moved behind itself it is self-looped, and the others stay a ring only if there are none |
| LiteList.ListMoveTail | utils/lite-list.h:182-187 | the entry becomes the last before the head, in the same cases; moved before itself it stays a ring if and only if there are no others, and any others are none |
| LiteListOps.MoveBetween | utils/lite-list.h:171-187 | between two lists a move is possible and conserves the multiset of their entries |
| LiteListOps.MoveToOther | utils/lite-list.h:171-187 | after a move from one list to another both are well formed, the one without the entry and the other with it, and together they have the same entries |
| LiteListOps.MoveInOwn | utils/lite-list.h:171-187 | a move within a list, also of an entry next to the head, reorders it and keeps its entries |
| LiteListOps.ListEmpty | utils/lite-list.h:204-207 | true exactly for a list without entries |
| LiteListOps.ListEmptyCareful | utils/lite-list.h:222-226 | true exactly for a list without entries |
| LiteListOps.ListIsLast | utils/lite-list.h:194-198 | true exactly for the last entry |
| LiteListOps.ListIsSingular | utils/lite-list.h:246-249 | true exactly for a list of one entry |
| LiteListOps.ListRotateLeft | utils/lite-list.h:232-240 | the first entry becomes the last; an empty list stays empty |
| LiteListOps.RotatedByIs | utils/lite-list.h:232-240 | k rotations of n entries rotate by k mod n |
| LiteListOps.SurvivorsAre | utils/lite-list.h:342-344 | the survivors of a traversal are exactly the entries not deleted |
| LiteListOps.SurvivorsInOrder | utils/lite-list.h:342-344 | any two survivors stand in the order in which they stood |
| LiteListOps.DeleteEntry | utils/lite-list.h:111-164 | deleting the k-th entry leaves the others a list in their order; `list_del_init` leaves the entry self-looped, `list_del` leaves it pointing to its former neighbours |
| LiteListOps.DeleteVisited | utils/lite-list.h:342-344 | deleting any visited entry still in the list, the current one or an earlier one, by either call, keeps what the traversal needs |
| LiteListOps.ForEachSafe | utils/lite-list.h:342-344 | for a body that in every turn deletes any of the entries visited so far, each by `list_del` or by `list_del_init`, the traversal terminates, visits every entry once and in order, and leaves the entries never deleted, in order, in a well-formed ring; entries initialised are self-looped, and the stale pointers of the others still lead forward and backward |
| CorrelationLaws.PollOk | edge/client.c:125-140 | a turn of polling keeps a call's time slept within its timeout and its status justified |
| CorrelationLaws.DecideOk | edge/client.c:320-336 | the status decided comes from a reply to the call's own id that arrived after its entry was added |
| CorrelationLaws.RemoveFinds | edge/client.c:338-339 | even when ids collide, a call that removes its entry finds an entry with its id |
| CorrelationLaws.StepKeepsInv | edge/client.c:288-341 | every step of every call, and every reply, keeps the invariant, whatever the ids: the multiset of ids, at most one entry for each call, and every status justified |
| CorrelationLaws.RunKeepsInv | edge/client.c:288-341 | so does every interleaving |
| CorrelationLaws.NoneOutstandingIff | edge/client.c:338-339 | no id is outstanding exactly if no call is past its adding and before its removal |
| CorrelationLaws.PendingAfterRun | edge/edge.c:784-824 | after any run the ids in the list are, as a multiset, those of the outstanding calls, and it is empty exactly if all calls have returned and every `edge_get_topo` among them succeeded |
| CorrelationLaws.LeavesEntryIff | edge/edge.c:795-815 | after any run, a call that has come to a status has returned with its entry left behind if and only if it is an `edge_get_topo` that failed |
| CorrelationLaws.AnsweredAfterRun | edge/client.c:320-336 | after any run, with any ids, a call other than `edge_get_topo` has reported success only if a reply to its own id had code zero, and refusal only if one had another code, dynamic registration by its own status |
| CorrelationFresh.FirstIsOwn | edge/common.c:47-65 | with ids distinct, the first entry with a call's id is its own |
| CorrelationFresh.LastForIs | edge/edge.c:377-384 | the last reply with an id from a given moment on |
| CorrelationFresh.StepKeepsFreshInv | edge/client.c:288-341 | with ids distinct, every step keeps the list equal to the outstanding calls in order and every entry equal to the last reply to its id |
| CorrelationFresh.RunKeepsFreshInv | edge/client.c:288-341 | so does every interleaving |
| CorrelationFresh.OutcomesAfterRun | edge/client.c:288-341 | after any such run a call failed to publish only with the library's own nonzero status; one that timed out had slept ten tenths of its timeout, less than 10 ms short of it, without a reply to its id before its last look; and one that decided followed the code of the last reply to its own id |
| CorrelationFresh.ReplyTouchesOnlyItsCall | edge/edge.c:365-386 | a reply changes the payload of the outstanding call with its id and nothing else; a late reply changes nothing |
| CorrelationCollisions.ReplyReachesIff | edge/edge.c:375-384 | with any ids, a reply that a call with its id does not hold yet is stored for that call if and only if the call's entry is in the list with no entry of the same id before it |
| CorrelationCollisions.ReachedIff | edge/edge.c:375-384 | whatever the next reply to a call's id says, the call will hold it, if and only if the same condition holds |
| CorrelationCollisions.RemovesOwnIff | edge/common.c:47-65 | with any ids, a call removes its own entry if and only if the same condition holds |
| CorrelationCollisions.CollisionsAfterRun | edge/client.c:288-341 | after any run, with any ids, both equivalences hold for every call, and no call has two entries |
| CorrelationCollisions.AllReachedIff | edge/edge.c:375-384 | all outstanding calls are sure to get their replies if and only if the entry of each is in the list and is the first with its id |
| CorrelationCollisions.AlwaysReachedIff | edge/client.c:288-341 | throughout a run all outstanding calls are sure to get their replies if and only if no call takes the id of an outstanding one |
| CorrelationCollisions.CollisionLosesReply | edge/common.c:47-65 | a concrete run with one id taken twice in which a call's reply arrives and is stored where that call never looks |
| RequestTable.MsgParse.constructor | edge/client.c:104-123 | a new entry has its id and no payload |
| RequestTable.FirstEntry | edge/edge.c:463-472 | searching the list with the match callback finds what the state machine's search by id finds |
| RequestTable.AddRequest | edge/client.c:297-303 | adding an entry to the actual list is the state machine's start |
| RequestTable.StoreReply | edge/edge.c:375-384 | finding and filling the entry of a reply is the state machine's arrival |
| RequestTable.RemoveRequest | edge/client.c:338-340 | removing from the actual list is the state machine's removal, and the entry freed is the first with the id |
| RequestTable.PollLooksIs | edge/client.c:125-140 | the state machine's polling ends at the first look that finds a payload or, timed out, at the eleventh, with the time slept |
| RequestTable.WaitPayload | edge/client.c:125-140 | the polling loop ends as the state machine's polling does, with the same status and time slept, never more than the timeout; a timeout comes after ten sleeps, less than 10 ms short of it |
| RequestTable.SyncCall | edge/client.c:304-340 | the branches of a synchronous call, from the publish to its end, return the status that the state machine's call decides, and reach the removal if and only if the call is not an `edge_get_topo` or has succeeded |
| CallTraces.SeenIsDelivered | edge/client.c:125-140 | in any run, what a call that comes to a status saw at a look is a reply to its id, delivered after its entry was added and before its last reading, and it then parsed one |
| CallTraces.OutcomeIsCallAlone | edge/client.c:288-341 | for every run, with any ids, in which a call comes to a status: with the payloads it had at its looks and at its parsing in that run, that call alone comes to that status after sleeping as long |
| CallTraces.MarksAreMoments | edge/edge.c:375-384 | the log of a run is what arrived in it, and a call's marks are the numbers of replies that had arrived when it was started and when it last read its payload |
| CallTraces.OwnStep | edge/client.c:288-341 | until a call has returned exactly one of its own steps can be taken, and each brings it closer to its return |
| CallTraces.CallFinishes | edge/client.c:288-341 | from any reachable state a call can return with at most 14 steps, all its own |
| CallTraces.LooksOccur | edge/client.c:288-341 | conversely, for every status of the publish and all looks that go from nothing to replies and never back, there is a run in which a call sees exactly these up to its last look and comes to the status it comes to with them alone |
| Lifecycle.LookUp | edge/edge.c:274-284 | the first node whose serial has the given one as a prefix |
| Lifecycle.LookUpFindsOwn | edge/edge.c:274-284 | a message for an online client's serial is looked up to exactly that client |
| Lifecycle.SafeIffNotFound | edge/common.c:31-45 | a login is safe if and only if looking the client's serial up in the list finds nothing, which a caller can check |
| Lifecycle.LogoutRemovesOwn | edge/client.c:426-452 | a successful logout removes that client's own node, frees that client, and touches no other |
| Lifecycle.StepKeepsInv | edge/client.c:403-452 | every safe login, and every logout or construction, keeps the invariant |
| Lifecycle.RunKeepsInv | edge/client.c:403-452 | so does every safe run |
| Lifecycle.OnlineIffListed | edge/client.c:403-452 | after any safe run a client is online exactly if it has exactly one node, offline exactly if none; no online client is freed, and look-ups by online serials find their clients |
| Lifecycle.AlwaysGoodIff | edge/client.c:403-452 | all this holds at every moment of a run if and only if every published login is of an offline client whose serial no online client's serial extends |
| Lifecycle.FailedPublishesLeaveNoTrace | edge/client.c:403-452 | leaving out all logins and logouts whose publish fails keeps any run legal, leaves its final state as it is, and makes it neither safe nor unsafe |
| Lifecycle.LogoutFreesIff | edge/client.c:448-450 | in any state, a published logout of an online client frees, of all clients, exactly the one that has the first node whose serial extends its serial, takes only itself offline, and changes no serial |
| Lifecycle.LogoutRemovesOwnIff | edge/edge.c:482-491 | in any state, also with clients listed twice or not at all, a logout frees the client itself if and only if it has a node with no node before it whose serial extends its serial |
| Lifecycle.PrefixLogsOutOther | edge/edge.c:482-491 | a concrete run after which logging out "dev1" has freed the online client "dev10" |
| DeviceTable.SubdevClient.constructor | edge/client.c:21-27 | a new client is offline |
| DeviceTable.Construct | edge/client.c:7-28 | constructing a client is the state machine's construction |
| DeviceTable.FirstClient | edge/edge.c:482-491 | searching the list with the match callback finds what the state machine's look-up by prefix finds |
| DeviceTable.LoginAsync | edge/client.c:403-424 | the code on the actual list is the state machine's login, and returns the status of the publish |
| DeviceTable.LogoutAsync | edge/client.c:426-452 | the code on the actual list is the state machine's logout, for offline clients, failed publishes, found and missing nodes, with the status in each case; the client freed by the code is the one newly freed in the state machine |
| DeviceTable.RemoveClient | edge/common.c:47-65 | the removal takes the node the serial is looked up to |
| DeviceTable.ClientOfMessage | edge/edge.c:274-284 | the client a message is handed to is the one looked up, which is the addressed one for every online serial |
| StatusSync.DeviceInfo | edge/edge.c:549 | the string of a device has one to 99 characters, and no NUL if its serials have none |
| StatusSync.InfoIsCut | edge/edge.c:549 | it is the device's text, or the first 99 characters of it |
| StatusReader.DeviceTextIsPrinted | edge/common.h:23 | the text of a device is the format with the product serial and then the device serial put in, whatever they are |
| StatusReader.DevicePieces | edge/common.h:23 | between its quotation marks the text names productSN and its value, then deviceSN and its value |
| StatusSync.ReportStep | edge/edge.c:543-560 | one more device appends its string, behind a comma unless it is the first; a node without a value adds nothing |
| StatusSync.StrCat | edge/edge.c:551-559 | appending to a C string extends its text and moves its NUL |
| StatusSync.WalkDevices | edge/edge.c:535-562 | the walk from the tail, skipping nodes without a value, builds the report |
| StatusSync.BuildReport | edge/edge.c:523-565 | the message is the comma join of the devices' strings in reverse list order, one per node with a value |
| StatusReader.ReportReadsBack | edge/edge.c:523-565 | from the report of any list whose devices have serials without quotation marks and are not cut, a reader of the report's form gets back exactly these devices, from the tail to the head |
| StatusSync.JoinLength | edge/edge.c:549-560 | n strings of at most 99 characters join to at most 100n-1, and to that length if all have 99 |
| StatusSync.AlwaysFitsIff | edge/common.h:35 | the reports of all lists of n devices fit the 2048-byte buffer if and only if n is at most 20 |

## Left out

- Base64Codec.Base64Encode: does not model a negative length, for which C's remainder and loop bounds are a matter of their own.
- UtilsList.List.Rpush: does not model the wrap-around of the 32-bit length.
- LiteListOps.ListEmptyCareful: does not model a concurrent writer.
- CStrings.ReplaceStr: the empty pattern is excluded, since the loop does not end for it; capacities of buffers are preconditions.
- TextBuffers.EscapeMessage: a message whose escaped form needs more than 2047 characters, which the code writes past its buffer, is excluded.
- TextBuffers.RrpcResponseTopic: a topic whose response does not fit 127 characters, which the code writes past its buffer, is excluded.
- Base64Decoder.Base64Decode: with signed `char`, a character above 127 before the first unknown one is excluded, since it indexes far outside the table.
- CorrelationCollisions.CollisionLosesReply: what a call reads from an entry that another call has freed is not modelled; the state keeps the entry's last value.
- Correlation: replies are already parsed into a request id and a code, and always have one; parse errors, and replies longer than a message buffer, are not modelled.
- Correlation: request ids are arbitrary 32-bit numbers; how they are drawn is not modelled.
- Correlation: early returns of dynamic registration when memory runs out, and all other failing allocations.
- Correlation: the effect of synchronous login, logout and registration on the online flag and the list of devices, where being online and being listed are not equivalent.
- Lifecycle: clients are freed only by the list; use of a freed client by synchronous logout (edge/client.c:370-389) is not modelled.
- StatusSync: the message that the report is printed into, the timer that triggers it and its publishing.
- NATS itself: publishing is a status that the environment chooses; subscriptions, flushing and reconnecting are left out.
- cJSON, formatting with `snprintf` other than its cut in the status report, the output of log records, configuration files, the dispatch of broadcast topics, setters of handlers, mutex creation, and the sample programs: library calls, plumbing, or easy.
- The remaining `list_for_each` macros: variants of the traversal that is proved.
