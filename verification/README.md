# Verified models of hatn

This project models four parts of the hatn libraries and proves what they promise, in Dafny 4.11. `dafny verify
dfyconfig.toml` checks all of it.

**An encrypted file with random access** (`CryptFile.dfy`, over `CryptLayout`, `ChunkStore`, `LruQueue`, `WriteLoop`,
`PlainFile`, `PlainSpec`). `CryptFile` shows a byte sequence over a raw file of packed chunks. It keeps decrypted
chunks in an LRU cache with dirty flags, two cursors, the number of the last chunk and both sizes. The class keeps the
fields and the loops of the source; a ghost field holds the plaintext, and the specification is a byte sequence with one
position (`PlainSpec.Step`). The invariant is a predicate on values (`ChunkStore.Store`): for every chunk, memory agrees
with the plaintext, and so does the disk unless the chunk is dirty. Packing is a function with a left inverse whose
output length depends on the input length only; a nonce makes it need not be deterministic. The main result is
`PerformAll`: any run of calls gives the results of the same run on a plain file, as long as every call is sound where
it is made; `Perform` says that a call does what it does on a plain file exactly if it is sound, and `Seek`, `Write` and
`Truncate` what an unsound one does. `UncachedFile.dfy`
models the same file with its cache disabled, `StreamAppend.dfy` the streaming mode, in which sizes are not stored and a
file that is opened again has its last chunk encrypted anew, and `Offsets32.dfy` the width of the position arithmetic.

**Configuration trees** (`ConfigTree`, `ConfigPath`, `ConfigLookup`, `ConfigMerge`, `ConfigEdit`, `ConfigListing`,
`ConfigTreeObject`, `JsonEvents`, `JsonReader`, `JsonRoundTrip`, `JsonProcessor`, `IncludeLoader`). A tree node is
unset, a scalar, an array of scalars of one type, an array of trees or a map. The models cover lookup and creation of
paths, removal, merging in all five array modes, traversal, the event handler that builds a tree on a stack, the
printer, settings that are replaced and read as JSON, and the loader of files that include each other.

**The event dispatcher** (`SubscriptionTrie`, `EventDispatcher`). A trie over wildcard selectors, as linked objects with
footprints, each method proved against a function on the value of the trie.

**Three smaller components** (`ByteArray`, `StreamReads`, `Tokenizer`). A byte buffer with room in front of its content;
the flag that keeps one read outstanding on a gRPC stream, as a system of atomic steps of any number of threads; and the
two tokenizers of normalized text.

## Where the code and its promise part

Each item names the theorem with the exact condition, for all inputs, and a concrete input or run that meets it
(`Witnesses.dfy`, unless another place is given).

- A seek to the place where the cursor is returns early, so that another position past the end that was asked for before
  stays in force. Exactly when: `CryptFile.Seek`. Run: `SeekIgnored`.
- A write that covers a partly filled last chunk which is not cached counts the chunk's bytes twice; the content is
  right, the size is not. Exactly when: `CryptFile.Write`. Run: `SizeTooLarge`.
- Truncating a file of several chunks to zero keeps the number of the last chunk. Seeking, reading, flushing and
  truncating to zero still work. Any other write or truncation fails, with a failed assertion (an exception, or the end
  of a debug build) or a refused seek, after it has changed the content, and with size and position as they were.
  Exactly when, and what is there afterwards: `CryptFile.Write`, `CryptFile.Truncate`. Run: `SizeLost`.
- A write past the end whose gap cannot be filled reports one byte written, because the error is converted to a size.
  In the model that happens to emptied files only. Exactly when: `CryptFile.Write`. Run: `OneByteReported`.
- Growing a file past a position that was beyond its end leaves the cursor behind that position. Exactly when:
  `CryptFile.Truncate`. Run: `CursorBehind`.
- With the cache disabled, a chunk that is left is written back only if it is the last one. Exactly when the changes can
  be lost, over everything its raw bytes may hold: `UncachedFiles.LeavingKeeps`; what a seek loses:
  `UncachedFile.DoSeek`; what a whole write over several chunks loses: `UncachedFile.WriteImpl`. Runs: `WriteLost`,
  `FirstHalfLost`.
- Positions are computed in 32 bits: a chunk that begins at or after 4 GiB lies over an earlier one. Exactly when:
  `Offsets32.RawOffsetWraps`, `Offsets32.PosWraps`. Input: `Offsets32.ChunkOverChunk`.
- A subscriber is called more than once for one event if a field before the last one its key sets is empty in both.
  Exactly when: `EventDispatcher.Matching`. Run: `FoundTwice`.
- A null inside an array closes the array's own context, which makes the handler refuse the document later. Exactly
  when: `JsonReader.Accepts`. Input: `NullInArray`.
- Strings and keys are printed as C strings, and some arrays do not come back. Exactly when:
  `JsonRoundTrip.ReloadsPrintable`. Input: `CutAtZero`.
- Merging is not associative where a node of another kind stands between two of one kind. Exactly when:
  `ConfigMerge.MergeAssociative`. Input: `ConfigMerge.ScalarBetweenMaps`.
- Planting a section that is no number in an array of trees drops the array. Exactly what is lost:
  `ConfigEdit.PlantedApart`. Input: `ConfigEdit.ArrayDropped`.
- Removing a path whose parent is there but is no map ends the program, because an exception leaves a `noexcept`
  function. Exactly when: `ConfigEdit.RemovedLookup`. Input: `ConfigEdit.ScalarParentEnds`.
- A path that ends in a separator is blended instead of replaced. Exactly when: `ConfigEdit.ReplacedExactly`. Input:
  `ConfigEdit.TrailingSeparatorKeepsOld`.
- Moving a small byte array that has room in front copies the wrong bytes. Exactly when: `ByteArrays.MoveKeeps`. Run:
  `MovedAway`.
- Shrinking a byte array, or limiting the room in front of it, does not move its content if the buffer stays. Exactly
  when the buffer stays: `ByteArray.Reserve`, `ByteArray.Shrink`; exactly when the content then survives:
  `ByteArrays.ClampKeeps`. Runs: `ShrunkAway`, `ClampedAway`.
- The read flag of a stream is cleared before the completed read is handled, so a next read can use the same buffer, and
  its callback can be cleared. Exactly when: `StreamReads.OneUserOrderly`. Run: `StreamReads.CallbackLost`.

## Model

| member | source | states |
|---|---|---|
| CryptLayout.ChunkBegins | crypt/include/hatn/crypt/cryptcontainer.ipp:236-252 | on the fields of the descriptor: chunk 1 begins behind the first chunk's own size, or the common one if there is none, every further chunk a common size later, and in the raw file each takes its overhead as well |
| CryptLayout.NextChunk | crypt/src/cryptfile.cpp:745-763 | the chunk after a limited chunk begins where that one ends, in the plaintext and in the raw file |
| CryptLayout.ChunkOrder | crypt/src/cryptfile.cpp:745-763 | an earlier chunk ends at or before the beginning of a later one, in the plaintext and in the raw file |
| CryptLayout.PosInChunk | crypt/src/cryptfile.cpp:766-787 | the chunk number computed for a position is that of the chunk the position lies in |
| CryptLayout.ChunkOfPos | crypt/src/cryptfile.cpp:766-787 | any position inside the bounds of a chunk is given that chunk's number |
| Offsets32.RawOffsetWraps | crypt/src/cryptfile.cpp:755-763 | the 32-bit raw offset is right exactly below 4 GiB; any other falls inside an earlier chunk |
| Offsets32.ChunkOverChunk | crypt/src/cryptfile.cpp:755-763 | a concrete layout in which chunk 65536 begins where chunk 0 does |
| Offsets32.PosWraps | crypt/src/cryptfile.cpp:745-752 | the 32-bit position of a chunk is right exactly below 4 GiB; any other is a position inside an earlier chunk |
| LruQueue.UseHit | common/include/hatn/common/lru.h:142-156 | touching a cached key puts it at the end of the queue, keeps the others in their order and evicts nothing |
| LruQueue.UseIsMostRecent | common/include/hatn/common/lru.h:207-257 | the queue of a cache with a capacity is always the most recent part of the order in which chunks were used |
| ChunkStore.Flushed | crypt/src/cryptfile.cpp:455-494 | writing a packed chunk over its raw bytes keeps every chunk good, puts this one on disk, and changes the ciphertext size only for the last chunk |
| ChunkStore.ReadSize | crypt/src/cryptfile.cpp:667-742 | the number of raw bytes read for a chunk is the number it has on disk |
| ChunkStore.LoadedAny | crypt/src/cryptfile.cpp:644-651 | a chunk brought into memory unread can be wrong only about itself |
| ChunkStore.Advanced | crypt/src/cryptfile.cpp:601-656 | after a full last chunk that is clean, the next chunk can become the last, empty on disk |
| ChunkStore.WriteStep | crypt/src/cryptfile.cpp:956-972 | overwriting part of a chunk, or all of an unread one, keeps all chunks good and grows the content only behind the end of the last chunk |
| ChunkStore.Cut | crypt/src/cryptfile.cpp:1345-1375 | cutting the plaintext and the raw file at the beginning of one chunk leaves all earlier chunks good and that one empty |
| ChunkStore.ChunkEnds | crypt/src/cryptfile.cpp:1342-1361 | the sizes subtracted chunk by chunk from the end are those between the beginning of the cut chunk and the end of the file |
| ChunkStore.StoredDecodes | crypt/include/hatn/crypt/cryptcontainer.ipp:634-668 | the container's own unpacking loop, run over the raw bytes of a clean store, gives the plaintext |
| WriteLoop.ProgressDone | crypt/src/cryptfile.cpp:928-1073 | over a whole write the bytes counted twice are those of a last chunk that is partly filled, fully overwritten and not cached when the write gets there |
| CryptFiles.StoredFileDecodes | crypt/include/hatn/crypt/cryptcontainer.ipp:634-668 | a raw file left by a flush decrypts to the plaintext by itself |
| CryptFiles.CountedTwice | crypt/src/cryptfile.cpp:965-972 | a concrete write to a file just opened, after which the content is right and the size is not |
| CryptFiles.CryptFile.Create | crypt/src/cryptfile.cpp:276-308 | a new file is valid, empty and saved |
| CryptFiles.CryptFile.Open | crypt/src/cryptfile.cpp:168-275 | a file whose stored sizes and bytes stand for a plaintext opens with that content at position zero, with chunk 0 as the only one cached |
| CryptFiles.CryptFile.FlushChunk | crypt/src/cryptfile.cpp:455-494 | a dirty chunk is on disk and clean afterwards, and no other chunk in memory changes |
| CryptFiles.CryptFile.DoFlush | crypt/src/cryptfile.cpp:391-437 | all chunks are clean and the stored sizes right, with nothing a caller sees changed |
| CryptFiles.CryptFile.Flush | crypt/src/cryptfile.cpp:328-337 | afterwards the raw file alone stands for the content |
| CryptFiles.CryptFile.MakeRoom | crypt/src/cryptfile.cpp:619-627 | a full cache loses its least recently used chunk, after that is flushed if dirty, and the invariant holds |
| CryptFiles.CryptFile.LoadCurrent | crypt/src/cryptfile.cpp:636-651 | a chunk becomes current with its plaintext, or empty if it will be overwritten whole |
| CryptFiles.CryptFile.DoSeek | crypt/src/cryptfile.cpp:577-664 | the chunk of the position becomes current, the last chunk and the cache order follow, no content is lost, and exactly the overwritten chunk may stay unread |
| CryptFiles.CryptFile.WriteImpl | crypt/src/cryptfile.cpp:928-1073 | the content is overwritten at the cursor and grown, and the size exceeds it by exactly the bytes counted twice; after several chunks were truncated to zero what fits the first chunk is written, the size stays, and the assertion or the seek to the next chunk fails |
| CryptFiles.CryptFile.Seek | crypt/src/cryptfile.cpp:557-574 | the position asked for is taken, except exactly when it is where the cursor is and an earlier one past the end is pending |
| CryptFiles.CryptFile.Read | crypt/src/cryptfile.cpp:1076-1146 | the bytes of the content at the position, up to the maximum, across any number of chunks |
| CryptFiles.CryptFile.Write | crypt/src/cryptfile.cpp:886-925 | what a plain file does, with a gap filled by zeros; the file stays usable exactly if no partial last chunk is skipped and the file was not emptied of several chunks, and else the wrong size, the bytes that are there, and the failure or the one byte reported are stated |
| CryptFiles.CryptFile.InvalidateCache | crypt/src/cryptfile.cpp:1150-1163 | content, size and cursor survive emptying the cache, also after the file has been emptied |
| CryptFiles.CryptFile.Extend | crypt/src/cryptfile.cpp:1196-1214 | the content is followed by zeros up to the new size and the cursor stays; in a file emptied of several chunks the first piece of zeros fails |
| CryptFiles.CryptFile.Subtract | crypt/src/cryptfile.cpp:1323-1361 | the loop over the dropped chunks arrives at the sizes of the file cut at a chunk and saves the head of the cut chunk |
| CryptFiles.CryptFile.Shrink | crypt/src/cryptfile.cpp:1306-1397 | the content becomes its first n bytes and the cursor the smaller of itself and n |
| CryptFiles.CryptFile.Clear | crypt/src/cryptfile.cpp:1311-1321 | the content is empty; the file is valid exactly if it had one chunk, and usable for everything but writing if it had more |
| CryptFiles.CryptFile.Truncate | crypt/src/cryptfile.cpp:1176-1398 | cut or followed by zeros for every n, as on a plain file, except exactly for growing a file emptied of several chunks, whose failure and content are stated; the cursors stay in step exactly outside the named case |
| CryptFiles.CryptFile.Perform | crypt/src/cryptfile.cpp:557-1398 | a call does to content, position and result what the specification does exactly if it is sound, truncation to zero included |
| CryptFiles.CryptFile.PerformAll | crypt/src/cryptfile.cpp:557-1398 | every run of calls, up to the first that is not sound, equals the run of the specification; a run may go on after truncating several chunks to zero |
| UncachedFiles.LeavingKeeps | crypt/src/cryptfile.cpp:440-452 | leaving the one chunk in memory keeps the file consistent whatever the chunk's raw bytes held, exactly if it is not dirty or is the last |
| UncachedFiles.UncachedFile.DoSeek | crypt/src/cryptfile.cpp:577-664 | without the cache, seeking takes the content back to what the disk held exactly if a dirty chunk that is not the last is left for another and was really changed |
| UncachedFiles.UncachedFile.WriteHere | crypt/src/cryptfile.cpp:956-977 | without the cache, a piece that fits the chunk in memory, read or left unread, is written at the cursor, and the size exceeds the content exactly by an unread last chunk |
| UncachedFiles.UncachedFile.ReadHere | crypt/src/cryptfile.cpp:1090-1140 | without the cache, what is read from the chunk in memory is the slice of the content at the cursor |
| UncachedFiles.UncachedFile.WriteImpl | crypt/src/cryptfile.cpp:928-1073 | without the cache, a write over several chunks keeps the bytes from the old last chunk or the last chunk it reaches on, loses the others, and makes the size wrong exactly if it covers all of a partly filled last chunk it does not begin in |
| Witnesses.SeekIgnored | crypt/src/cryptfile.cpp:557-574 | a run from a new file after which the position asked for last is not the position |
| Witnesses.CursorBehind | crypt/src/cryptfile.cpp:1176-1214 | a run from a new file that ends with a cursor before the position asked for, inside the file |
| Witnesses.SizeTooLarge | crypt/src/cryptfile.cpp:965-972 | a run from a new file, written, flushed, opened again and overwritten, that ends with eight bytes and size ten |
| Witnesses.SizeLost | crypt/src/cryptfile.cpp:1311-1321 | a run from a new file of two chunks, truncated to zero, in which every write fails and leaves content and size zero |
| Witnesses.OneByteReported | crypt/src/cryptfile.cpp:909-915 | a run on such a file in which a write past the end reports one byte written |
| Witnesses.WriteLost | crypt/src/cryptfile.cpp:577-664 | a run without the cache in which a byte that was written is read back as the old one |
| Witnesses.FirstHalfLost | crypt/src/cryptfile.cpp:928-1073 | a run without the cache in which of eight bytes written four are lost and the size is ten |
| StreamAppend.FileLength | crypt/src/cryptfile.cpp:979-1062 | the file of a content is as long as the content and one prefix for each chunk begun |
| StreamAppend.LengthIs | crypt/src/cryptfile.cpp:979-1062 | that length on the fields of the descriptor, by the number of chunks begun behind the first |
| StreamAppend.FileRead | crypt/src/cryptfile.cpp:979-1062 | reading the file of a content chunk by chunk gives the content |
| StreamAppend.OpenInvertsLength | crypt/src/cryptfile.cpp:198-254 | the size computed on open from the size of the data is that of the content, for every content |
| StreamAppend.OpenSizeMeans | crypt/src/cryptfile.cpp:198-254 | every size computed on open is of a content whose file has the length of the data, or that and one prefix more |
| StreamAppend.OpenRefused | crypt/src/cryptfile.cpp:217-243 | on the fields of the descriptor: opening is refused exactly if the data ends inside a prefix |
| StreamAppend.StreamFile.WritePiece | crypt/src/cryptfile.cpp:956-1062 | appending to a chunk appends to the content of the file: new bytes at the end, with a prefix if the chunk is begun, or the whole chunk encrypted again from its beginning after opening |
| StreamAppend.StreamFile.Write | crypt/src/cryptfile.cpp:928-1073 | the file is that of all content so far, however it was cut into writes |
| StreamAppend.StreamFile.Reopen | crypt/src/cryptfile.cpp:198-268 | an existing file of a content opens with the computed size and its last chunk read, ready to be continued |
| StreamAppend.StreamFile.Reopened | crypt/src/cryptfile.cpp:198-254 | opening again would find the size of what was written and read back the content |
| StreamAppend.Continue | crypt/src/cryptfile.cpp:198-268 | opening the file of a content and appending gives a file of the longer content, which reads back as that |
| SubscriptionTrie.PathMeans | app/include/hatn/app/eventdispatcher.h:141-151 | a key's node is at the selectors up to the last one that is not empty |
| SubscriptionTrie.PathMatches | app/src/eventdispatcher.cpp:56-126 | an event matches that path exactly if every selector of the whole key is empty or the event's own |
| SubscriptionTrie.PathOnce | app/src/eventdispatcher.cpp:56-126 | it is found once exactly if no selector that is empty in key and event is before one that the key sets |
| SubscriptionTrie.InsertAt | app/src/eventdispatcher.cpp:56-88 | inserting adds the handler at the path of its key and changes no other path |
| SubscriptionTrie.InsertPruned | app/src/eventdispatcher.cpp:56-88 | inserting leaves no empty node below the root |
| SubscriptionTrie.RemoveInserted | app/src/eventdispatcher.cpp:31-54 | removing the number just inserted restores the trie exactly |
| SubscriptionTrie.RemoveAt | app/src/eventdispatcher.cpp:31-54 | removing a number takes it from its path and leaves all other paths as they are |
| SubscriptionTrie.RemovePruned | app/src/eventdispatcher.cpp:31-54 | removing leaves no empty node below the root |
| SubscriptionTrie.FindCount | app/src/eventdispatcher.cpp:92-126 | how often a handler is found is the product over the levels above it |
| SubscriptionTrie.WeightMeans | app/src/eventdispatcher.cpp:92-126 | that product is zero without a match and two to the number of levels where both selectors are empty with one |
| SubscriptionTrie.FindIsScan | app/src/eventdispatcher.cpp:92-126 | finding equals the scan of all subscriptions, with that multiplicity |
| SubscriptionTrie.ListingSorted | app/src/eventdispatcher.cpp:96-102 | the handlers of one node are called in the order they were subscribed in |
| SubscriptionTrie.FoundInOrder | app/src/eventdispatcher.cpp:92-126 | the handlers of a node come in the order they were subscribed in and before all below it, and those below the event's own selector before those below the empty one |
| SubscriptionTrie.CalledOnce | app/src/eventdispatcher.cpp:92-126 | a matching handler is found once exactly if at no level of its path both selectors are empty |
| SubscriptionTrie.InsertRepresents | app/src/eventdispatcher.cpp:56-88 | the trie of a set of subscriptions, with one inserted, is that of the set with one more |
| SubscriptionTrie.RemoveRepresents | app/src/eventdispatcher.cpp:31-54 | the trie of a set of subscriptions, with one removed, is that of the set without it |
| EventDispatching.EventSubscriptions.DoInsert | app/src/eventdispatcher.cpp:56-88 | the linked nodes hold the value that inserting gives |
| EventDispatching.EventSubscriptions.DoFind | app/src/eventdispatcher.cpp:92-126 | what is found is appended to the result in the order of the specification |
| EventDispatching.EventSubscriptions.DoRemove | app/src/eventdispatcher.cpp:31-54 | the linked nodes hold the value that removing gives, and the result says whether the number was there |
| EventDispatching.EventDispatcher.Subscribe | app/src/eventdispatcher.cpp:213-230 | the next number is given and key and handler recorded under it |
| EventDispatching.EventDispatcher.Unsubscribe | app/src/eventdispatcher.cpp:234-248 | exactly that subscription is gone |
| EventDispatching.EventDispatcher.Matching | app/src/eventdispatcher.cpp:151-209 | exactly the handlers are called whose key is, in each of its six fields, empty or the event's own, and just once exactly if no field empty in both is before one the key sets |
| Witnesses.FoundTwice | app/src/eventdispatcher.cpp:92-126 | a run of a new dispatcher in which one subscription is found twice for one event |
| JsonEvents.LoadHomogeneous | base/src/configtreejson.cpp:161-272 | a value can be loaded exactly when all its arrays hold scalars of one type, or objects and arrays only |
| JsonEvents.LoadArray | base/src/configtreejson.cpp:161-272 | an array is loaded exactly if it is empty, or all integers, all floating numbers, all booleans, all strings, or all objects and arrays that are loaded themselves; empty, it is loaded as an unset node |
| JsonEvents.LoadedArray | base/src/configtreejson.cpp:161-272 | the elements of a loaded array in order, and the element type of each kind |
| JsonEvents.LoadObject | base/src/configtreejson.cpp:62-148 | an object is loaded exactly if its values are, as a map of exactly its keys to them |
| JsonReader.ValueShrinks | base/src/configtreejson.cpp:82-288 | the events of a value never leave the stack deeper, and outside an array close one context at least |
| JsonReader.ValueFollows | base/src/configtreejson.cpp:82-288 | a value read into a fresh context closes it with the loaded tree, or is refused, or closes too many contexts |
| JsonReader.ItemFollows | base/src/configtreejson.cpp:96-116 | the same for an element of an open array |
| JsonReader.Accepts | base/src/configtreejson.cpp:82-288 | the handler accepts the events of a value exactly when it can be loaded, ends with an empty stack, and has built the loaded tree |
| JsonReader.EmptyArray | base/src/configtreejson.cpp:221-288 | the handler run over an empty array finishes with an unset node |
| Witnesses.NullInArray | base/src/configtreejson.cpp:150-159 | the document of an array with one null is refused |
| Witnesses.CutAtZero | base/src/configtreejson.cpp:342-548 | a concrete string that is loaded shorter than it was |
| JsonRoundTrip.WrittenMeans | base/src/configtreejson.cpp:342-548 | what is written for each kind of node: null, the scalar, an array in order, an object with one member for each key, keys in order |
| JsonRoundTrip.CStringCut | base/src/configtreejson.cpp:342-548 | a string is written up to its first zero character |
| JsonRoundTrip.ReloadsPrintable | base/src/configtreejson.cpp:342-548 | a tree is loaded from its own JSON exactly when it is printable |
| JsonRoundTrip.RoundTrip | base/src/configtreejson.cpp:295-548 | running the handler over the printed events gives the tree back, with no context open, if the tree is printable; and only if, where no printed object repeats a key |
| JsonProcessor.Parse | base/src/configtreejson.cpp:295-334 | parsing the events of a value gives what it loads as, exactly when its arrays are homogeneous |
| JsonProcessor.Writer.WriteTree | base/src/configtreejson.cpp:342-548 | the printer appends the events of the tree's JSON value, map keys in order |
| JsonProcessor.Rewrite | base/src/configtree.cpp:481-489 | printing and parsing give the same tree exactly for printable trees |
| ConfigTrees.BeforeMeans | base/include/hatn/base/configtreevalue.h:46 | one key is before another exactly if it is a proper beginning of it, or smaller at the first character that differs |
| ConfigTrees.InOrderSorted | base/include/hatn/base/configtreevalue.h:46 | the keys of a map in order are each key once, earlier ones before later ones |
| ConfigPaths.JoinAppend | base/src/configtreepath.cpp:133-146 | the text of a path is that of its parts with a dot between them |
| ConfigPaths.TextRoundTrip | base/src/configtreepath.cpp:133-146 | a path is read back from its text exactly when no section holds the separator and it is not one empty section |
| ConfigPaths.NumberRoundTrip | base/src/configtreepath.cpp:118-129 | an index is read back from its text exactly when it fits an int |
| ConfigPaths.NumberDigits | base/src/configtreepath.cpp:118-129 | digits are an index in decimal, up to the largest int |
| ConfigPaths.NumberRead | base/src/configtreepath.cpp:118-129 | behind blanks and a sign, and whatever follows the digits, a section is the index it spells exactly if that fits an int; with a minus it counts back from 2 to the 64 |
| ConfigPaths.ConfigTreePath.Append | base/src/configtreepath.cpp:54-63 | the sections of a text are added behind, and the text of the path follows |
| ConfigPaths.ConfigTreePath.Prepend | base/src/configtreepath.cpp:67-76 | the sections of a text are added in front, and the text of the path follows |
| ConfigPaths.ConfigTreePath.DropBack | base/src/configtreepath.cpp:80-95 | the last sections are dropped, all of them if there are not more, and the text follows |
| ConfigPaths.ConfigTreePath.DropFront | base/src/configtreepath.cpp:99-114 | the first sections are dropped, all of them if there are not more, and the text follows |
| ConfigLookup.LookupAppend | base/src/configtree.cpp:26-94 | looking up a path is looking up its end in what its beginning leads to |
| ConfigLookup.EmptySkipped | base/src/configtree.cpp:26-94 | an empty section anywhere in a path makes no difference |
| ConfigLookup.ChildMeans | base/src/configtree.cpp:52-83 | one step down for each kind of node, with the error of each |
| ConfigLookup.DoGet | base/src/configtree.cpp:26-94 | the loop finds what the specification finds, and on failure reports the section and the node where it stopped, with the error told from the kind of that node |
| ConfigMerge.ScalarsMerged | base/include/hatn/base/detail/configtreevalue.ipp:280-330 | two arrays of scalars in each of the five modes: the length and every element |
| ConfigMerge.TreesMerged | base/include/hatn/base/detail/configtreevalue.ipp:280-330 | the same for arrays of trees, whose elements at one place are merged with Merge |
| ConfigMerge.MapsMerged | base/src/configtree.cpp:339-360 | two maps hold the keys of both, and at a key of both the merged nodes |
| ConfigMerge.OthersMerged | base/src/configtree.cpp:318-338 | nodes of two kinds: the second wins if it is set |
| ConfigMerge.FindMerged | base/src/configtree.cpp:307-398 | lookup goes through merging at every path where the trees meet side by side, array indices included; below a node of another kind only the second tree is found |
| ConfigMerge.MergeIdempotent | base/src/configtree.cpp:307-398 | a tree merged into itself stays the same, except exactly for arrays that are appended or prepended |
| ConfigMerge.MergeAssociative | base/src/configtree.cpp:307-398 | the order of two merges does not matter exactly under a condition on kinds, in all five array modes |
| ConfigMerge.AgreeAssociates | base/src/configtree.cpp:307-398 | trees that agree on kinds satisfy that condition |
| ConfigMerge.ScalarBetweenMaps | base/src/configtree.cpp:334-338 | a concrete case in which the order matters |
| ConfigEdit.PlantedLookup | base/src/configtree.cpp:98-168 | a node planted at a path is found there |
| ConfigEdit.PlantedRefused | base/src/configtree.cpp:98-168 | planting is refused exactly where a section is an index past the end of the array it is reached in |
| ConfigEdit.PlantedApart | base/src/configtree.cpp:98-168 | at a path that parts from the planted one, what was found is found, except exactly in an array that is turned into a map, of which nothing is left |
| ConfigEdit.ArrayDropped | base/src/configtree.cpp:98-168 | a concrete array that loses its node |
| ConfigEdit.RemovedLookup | base/src/configtree.cpp:273-293 | the program ends exactly when the parent is there and no map; a removed path with a last section is not found, and other paths keep their nodes |
| ConfigEdit.ScalarParentEnds | base/src/configtree.cpp:273-293 | a concrete path below a scalar whose removal ends the program |
| ConfigEdit.ReplacedLookup | clientapp/src/clientappfilesettings.cpp:210-218 | removing and merging at a path with a last section puts exactly the new value there, changes a path that parts from it exactly in an array that is dropped, and a refusal leaves the tree as it was |
| ConfigEdit.TrailingSeparatorBlends | clientapp/src/clientappfilesettings.cpp:210-218 | a path with an empty last section, at any map, is merged into all of the map but its empty key instead of replaced |
| ConfigEdit.ReplacedExactly | clientapp/src/clientappfilesettings.cpp:210-218 | a replaced path holds exactly the new value if and only if its last section is not empty, its parent is missing, or the new value covers what the parent keeps |
| ConfigEdit.TrailingSeparatorKeepsOld | clientapp/src/clientappfilesettings.cpp:210-218 | a concrete setting whose old value stays beside the new one |
| ConfigTreeObjects.ConfigTree.BuildPath | base/src/configtree.cpp:98-168 | the loop creates what is missing and nothing else, or refuses an index past the end and changes nothing |
| ConfigTreeObjects.MergeTree | base/src/configtree.cpp:307-398 | merging node by node gives the merged tree |
| ConfigTreeObjects.MergeTrees | base/include/hatn/base/detail/configtreevalue.ipp:280-311 | arrays of trees are merged element by element and the rest is appended |
| ConfigTreeObjects.ConfigTree.MergeAt | base/src/configtree.cpp:307-398 | merging at a path that may be missing changes the tree as the specification says, or not at all |
| ConfigTreeObjects.ConfigTree.Remove | base/src/configtree.cpp:273-293 | the tree without the path, or the end of the program |
| ConfigTreeObjects.ConfigTree.Copy | base/src/configtree.cpp:481-489 | a node copied by way of JSON is merged as it is exactly if printable, and the target is untouched when that fails |
| ConfigTreeObjects.ClientAppFileSettings.SetJson | clientapp/src/clientappfilesettings.cpp:194-219 | JSON replaces the value at a path; unreadable JSON and a refused path change nothing |
| ConfigTreeObjects.ClientAppFileSettings.GetJson | clientapp/src/clientappfilesettings.cpp:223-234 | the JSON of what is found at the path, if it is set |
| ConfigListing.NextEach | base/src/configtree.cpp:403-436 | the recursive traversal visits the nodes of the specification in its order |
| ConfigListing.AllKeys | base/src/configtree.cpp:466-477 | the texts of all visited paths, or the lookup's error |
| ConfigListing.ListedFound | base/src/configtree.cpp:403-477 | every listed path, joined and split again, leads to the very node it was listed for, which is not the root |
| ConfigListing.FoundListed | base/src/configtree.cpp:403-477 | every node below is listed under its path |
| ConfigListing.ListedInOrder | base/src/configtree.cpp:403-436 | a node is listed before those below it, and where two paths part, at a map the smaller key comes first and at an array the smaller index |
| ConfigListing.ListedOnce | base/src/configtree.cpp:403-477 | no path is listed twice |
| IncludeLoader.LoadNext | base/src/configtreeloader.cpp:295-385 | the recursive loader ends for every set of files and returns what the specification loads |
| IncludeLoader.LoadedWalks | base/src/configtreeloader.cpp:295-385 | after a successful load no walk along includes repeats a file or meets one that is missing or unreadable |
| IncludeLoader.ErrorWalk | base/src/configtreeloader.cpp:295-308 | an error is explained by a walk from the file: it repeats a file, meets one that is missing or unreadable, or ends at a file whose nested include is refused |
| IncludeLoader.GraphDecides | base/src/configtreeloader.cpp:295-385 | loading succeeds exactly if no walk along includes repeats a file, meets one that is missing or unreadable, or reaches one with a nested include that is refused |
| IncludeLoader.Precedence | base/src/configtreeloader.cpp:343-381 | a value that is no map, arrays included: plain top includes are merged in order with their own modes, the file with what extends it is merged into that with the mode of the last include without a file, and then the nested includes with theirs |
| IncludeLoader.ScalarPrecedence | base/src/configtreeloader.cpp:343-381 | a scalar comes from the last that sets it of: plain top includes in order, the file, extending includes, nested includes |
| ByteArrays.ByteArray.Reserve | common/src/bytearray.cpp:171-315 | for every limit of the room in front, whether the buffer stays, where the content then is and what becomes the content, told from the state before the call |
| ByteArrays.ByteArray.Resize | common/src/bytearray.cpp:105-124 | the common prefix is kept |
| ByteArrays.ByteArray.Rresize | common/src/bytearray.cpp:127-168 | the common suffix is kept, with the data shifted inside the buffer, behind a smaller offset or in a new block |
| ByteArrays.ByteArray.Append | common/src/bytearray.cpp:318-327 | concatenation at the end |
| ByteArrays.ByteArray.Prepend | common/src/bytearray.cpp:330-339 | concatenation at the beginning |
| ByteArrays.ByteArray.CStr | common/src/bytearray.cpp:342-368 | a zero stands behind the content, which does not change |
| ByteArrays.ByteArray.Shrink | common/include/hatn/common/bytearray.h:393-396 | whether the buffer stays is told from size and capacity before the call; if it stays its first bytes become the content, else the content is kept |
| ByteArrays.ClampKeeps | common/src/bytearray.cpp:286-314 | over every buffer, limiting the room in front keeps the content exactly if the buffer is replaced, or there is no more room than that, or no content |
| Witnesses.ShrunkAway | common/include/hatn/common/bytearray.h:393-396 | a run from a new array after which shrinking changes its one byte |
| Witnesses.ClampedAway | common/src/bytearray.cpp:171-315 | a run from a new array after which reserving with a limit changes its one byte |
| ByteArrays.ByteArray.Move | common/include/hatn/common/bytearray.h:764-781 | a block changes hands; from a buffer inside the object only as many bytes from its start as the content is long |
| ByteArrays.MoveKeeps | common/include/hatn/common/bytearray.h:776-779 | a small array survives a move exactly if it has no room in front or no content |
| Witnesses.MovedAway | common/include/hatn/common/bytearray.h:764-781 | a run from a new array after which moving it gives a byte the memory held |
| ByteArrays.EndsApart | common/src/bytearray.cpp:105-339 | in a run, what is appended or prepended is cut off again by a resize at the same end, and the other end is left alone |
| ByteArrays.ByteArray.Perform | common/src/bytearray.cpp:90-368 | every run of operations does to the array what it does to a sequence |
| StreamReads.StepKeepsToken | grpcclient/src/grpcstream.cpp:273-300 | every step of every thread and of the transport keeps one token, which is the flag |
| StreamReads.OneRead | grpcclient/src/grpcstream.cpp:273-300 | in every reachable state at most one read is outstanding, and a thread about to start one finds none |
| StreamReads.CheckPasses | grpcclient/src/grpcstream.cpp:273-282 | a thread passes the check exactly if the stream is not closed, and only closing changes that |
| StreamReads.NoReadOnceClosed | grpcclient/src/grpcstream.cpp:273-300 | once the stream is closed, no thread outside ever starts a read, in any run |
| StreamReads.ReadsConserved | grpcclient/src/grpcstream.cpp:78-102 | over any run, reads started, completions, releases and messages handled differ exactly by what the state counts |
| StreamReads.OneUserOrderly | grpcclient/src/grpcstream.cpp:78-102 | buffer and callback have one user throughout a run exactly if no thread claims a read while a completion is handled |
| StreamReads.CallbackLost | grpcclient/src/grpcstream.cpp:92-102 | a concrete run in which the next read is outstanding with its callback set, and handling the last one clears it |
| Tokenizer.Tokenize | common/src/utf8_tokenize.cpp:57-97 | the loop splits as the specification does |
| Tokenizer.TokensMean | common/src/utf8_tokenize.cpp:57-97 | no token is empty or holds a separator or punctuation, and all tokens together are the text without those |
| Tokenizer.TokensParted | common/src/utf8_tokenize.cpp:57-97 | a separator or punctuation parts the text into tokens before and after it, and a text without is one token |
| Tokenizer.TokenizeWithDomains | common/src/utf8_tokenize.cpp:111-169 | the loop splits as the specification does, with one code point of lookahead |
| Tokenizer.DomainsRefine | common/src/utf8_tokenize.cpp:57-169 | tokenizing every domain token further gives exactly the plain tokens |
| Tokenizer.DomainsGlued | common/src/utf8_tokenize.cpp:123-167 | no domain token is empty, and punctuation in one is a dot or a hyphen between two letters or digits |
| Tokenizer.DomainsWhole | common/src/utf8_tokenize.cpp:123-167 | a text is kept as one token exactly if it has no separator and its punctuation is dots and hyphens between two letters or digits |
| Tokenizer.DomainsParted | common/src/utf8_tokenize.cpp:123-167 | a separator parts any text, and so does punctuation that is no dot or hyphen between two letters or digits |

## Left out

- CryptFile: the header and descriptor encoding, the backup copy, file stamps, operating system errors, partial raw
  writes, closed files and mutexes; the raw file is a byte array with two stored sizes.
- CryptFiles.CryptFile.Open: random-write modes with the cache disabled are excluded here and modelled by
  `UncachedFiles.UncachedFile`, because changes are then lost.
- UncachedFiles.UncachedFile: reading is followed within one chunk; storing the sizes, truncation, and switching the
  cache of an open file on or off are not.
- CryptFiles.CryptFile.Write: what further calls do after one has failed on an emptied file is not followed.
- CryptFile: growing with a maximal processing size of zero does not end, so a positive one is required there;
  truncating a file that is not open for writing is not followed.
- CryptLayout.Cipher: packing is taken to add its maximal overhead to every full chunk. The code that would pad a full
  chunk to that size is never reached (`crypt/include/hatn/crypt/cryptcontainer.ipp:752`, the tested variable stays
  zero), so this is a property of the cipher.
- StreamAppend: unlimited chunks are not followed, and a file that is no stream is not opened.
- EventDispatching.EventDispatcher: the counter of numbers is a static of the process in the source and a field here.
- JsonReader.Accepts: a node under construction is held in its context and hung into its parent when the context closes,
  where the source holds a pointer. For a repeated key the source keeps the old node and frees the new one, and then
  writes through the pointer to it; what follows is undefined, so distinct keys are required.
- JsonReader.ValueFollows: distinct keys are required, as for `JsonReader.Accepts`.
- JsonReader.ItemFollows: distinct keys are required, as for `JsonReader.Accepts`.
- JsonProcessor.Parse: distinct keys are required, as for `JsonReader.Accepts`.
- JsonProcessor.Rewrite: the printed objects must not repeat a key, as two keys may once they are cut at a zero
  character.
- JsonRoundTrip.RoundTrip: the same for the direction that says a tree is not given back.
- ConfigTreeObjects.ConfigTree.Copy: the same, for the node that is copied.
- ConfigTreeObjects.ClientAppFileSettings.SetJson: distinct keys are required, as for `JsonReader.Accepts`.
- JsonEvents: text, comments, number formatting and integer widths; scalars are integers, reals, booleans and strings.
- ConfigTrees: default values of nodes.
- ConfigPaths: a separator of more than one character, which is split at any of its characters but joined as a whole.
- ConfigTreeObjects.ConfigTree: nodes are values; writing through a reference to a node is planting it again at its
  path. The branch of `buildPath` that replaces an array element is not there, since it is never reached.
- ConfigTreeObjects.ClientAppFileSettings: saving to the file, the lock, and publishing the change.
- IncludeLoader: finding includes in a parsed tree, resolving file names, formats and prefix substitution; a file is its
  tree without include tags and its lists of includes.
- IncludeLoader.Precedence: paths that lead through an array of trees are not followed; where the trees meet there is
  said by `ConfigMerge.FindMerged` for each single merge.
- ByteArrays.ByteArray: external buffers, and the length of the blocks a memory pool gives, which is a function here.
- StreamReads: `startStream` is taken as finished before the first step; delivery of messages is not modelled.
- ByteArrays.ByteArray.Reserve: shifting for a reverse resize together with a maximal offset is not followed; no caller
  asks for both.
- Tokenizer: decoding of UTF-8 and normalization; a text is its code points up to the first that is invalid.
- Variable-length integers and calendar ranges.
