# The libraries behind the pages, and the audit migration, in Dafny

The server in this repository hands its pages two bundles that carry whole libraries, and comes with a
script that moves its audit rows from one database to another. This project models the code of these that
is hardest to get right, and proves what it is for. Each file is one component:

| file | models | the main result |
|---|---|---|
| `Digits.dfy`, `ListViews.dfy`, `ListTrie.dfy`, `ListPrograms.dfy` | Immutable.List: a 32-way trie with a detached tail, and tokens of ownership (module 0) | a call is the call on a plain sequence exactly if it reveals nothing left in the trie; programs over many lists that share nodes mean what they mean on plain sequences up to the first that does, and always if they are safe |
| `HashBits.dfy`, `HashTrie.dfy` | Immutable.Map: the hash trie with five kinds of nodes (module 0) | every run of `set` and `remove` represents a finite map, for every hash function |
| `OrderedMap.dfy`, `OrderedMapRun.dfy` | Immutable.OrderedMap (module 0), on the hash trie and the list trie | an insertion-ordered map, exactly up to the first step that shows removed entries again; a run with such a step |
| `Records.dfy`, `Shapes.dfy`, `LiveMap.dfy` | the Map of the polyfill, changed while it is iterated (`swagger-ui.js`, module 596) | `forEach` and iterators do what ECMA-262 asks, whatever the callback does |
| `Writable.dfy` | the Writable stream (module 99) | order, accounting and the finish event over every run |
| `NextTick.dfy` | the `nextTick` queue (module 22) | tasks start in order, once each, though tasks throw |
| `LruQueue.dfy`, `ArgumentTree.dfy`, `Memoizer.dfy` | the LRU queue (422), the argument tree (404) and the memoizer (377, 421) | a memoized function is the function, and calls it only for arguments it does not remember; what a limit keeps is what was used last |
| `Utf8.dfy` | UTF-8 in Buffer (module 58) | exactly section 3 of RFC 3629, and the round trip |
| `StringDecoder.dfy` | StringDecoder (module 156) | where the input is cut does not matter, exactly unless a character begun with two octets or more is broken off |
| `Base64.dfy` | base64 (module 237) | section 4 of RFC 4648, and the round trip |
| `HashBlocks.dfy` | the block buffer of the SHA functions (module 35) | the padded message of FIPS 180-4 |
| `SignedInts.dfy` | signed integers of 1 to 6 octets in Buffer (module 58) | the round trip, the borrow flag, and where it fails |
| `YamlQuoted.dfy` | YAML double-quoted scalars (429 reads, 448 writes) | the round trip for any code units, and exactly when reading is what YAML asks for |
| `ReadBuffer.dfy` | the read buffer of Readable (152, 362), with StringDecoder | what each read gives, and that nothing is lost or out of order, decoded if there is a decoder |
| `Migration.dfy` | `scripts/immudb_migration.py` | exactly the rows of the whole days, each once |
| `Options.dfy`, `Sequences.dfy`, `Arithmetic.dfy`, `Utf16.dfy` | options, sequences end to end, integers modulo powers of two, code units | shared by the others |

Module numbers are those of webpack; unless another bundle is named they are those of
`swagger-ui-standalone-preset.js`. Names in backquotes are the minified names of the source.

## How it is modelled

- What the source updates in place is a class here: list nodes, lists, map entries, streams, queues, trees,
  buffers, decoders, the YAML reader, the target table. What it never updates is a datatype: the nodes of the
  hash trie (the model has no owner there) and ordered maps.
- JavaScript arrays that grow are sequences held in fields; `Hole`, `None` and -1 stand for `undefined`, `null` and
  NaN where the source meets them. A list element that is undefined is None, and so is an entry removed from an
  ordered map.
- In the list trie a level is one 5-bit digit, so level k is `_level == 5 * k`. The ghost position of a node (its level
  and the digits above it) never changes: that makes sharing of nodes between lists something one node can state.
- Code the components call but do not contain is a parameter: the hash of a key, the memoized function and the calls it
  makes, the script of a `forEach` callback, what a drain handler or a write callback does, whether `_write` acknowledges
  at once, the index key of `fastKey`, the timestamp made of a row. Theorems hold for all of them. `fastKey` gives the
  index key "E" for an extensible object it has not seen; the index has no such key.
- Timers and ticks are events of a run, in any order the source allows.

## Where the code and what is promised of it differ

- A list that is shortened keeps blocks in its trie when its tail offset stays or becomes a power of 32
  (`ListTrie.RemoveAfter`, `ListTrie.CutBounds`), and `Ne` does not hang an empty tail over them. When the list grows
  past such a place, what was removed is back (`ListViews.GrownElems`, `ListTrie.List.Apply`).
- So an OrderedMap can show entries that were removed: it does exactly if a new key is set while the size of its list is a
  multiple of 32 from 64 on, the array of the tail is empty, and a block is left at its place
  (`OrderedMap.AgreesIff`, `OrderedMap.RunAgrees`). `OrderedMapRun.RunDiverges` is such a run.
- `get`, `set`, `has` and `delete` of the polyfill find a record under a frozen object by `==`, so a key of another type
  whose string form is the same may be found instead (`LiveMap.SearchIsExactIff`, `LiveMap.FrozenKeyFindsStringKey`).
- `delete` of the argument tree forgets the id found at the leaf. After `set`, `set` for the same arguments, `delete` of
  the first id forgets the second, and `delete` of the second is then an error. It forgets the id it is given exactly if
  that is the one its arguments have now, or they are the empty list (`ArgumentTree.ForgetsIff`,
  `ArgumentTree.ForgetsOther`), so it does if arguments are set only when they have no id, as in a memoizer
  (`ArgumentTree.NewAgrees`).
- UTF-8 encoding loses one replacement character exactly for strings that end in two high surrogates in a row
  (`Utf8.EncodesAllButLast`, `Utf8.TwoHighsLoseOne`).
- `write` into a buffer with a length below the room left may cut a character
  (`Utf8.WritesWholeCharacters`, `Utf8.CutsCharacter`).
- StringDecoder gives one replacement for a character that is broken off behind a cut, where `toString` of the whole
  gives one for each octet (`StringDecoder.StreamedIff`, `StringDecoder.CutLosesOne`).
- The YAML reader keeps white space before a line break, and loses empty lines behind an escaped line break; sections 6.5
  and 7.3.1 of YAML 1.2 ask for the contrary (`YamlQuoted.ReadsYamlIff`).
- `writeIntLE` and `writeIntBE` check only the end of the octets: at a negative offset the first octets are written
  nowhere, and `writeIntLE` can get the others wrong (`SignedInts.LittleExactIff`, `SignedInts.WrongOctet`).
- The migration leaves out the last part of a day (`Migration.CompleteIff`).

## Model

| member | source | states |
|---|---|---|
| `ListTrie.List.Get` | src/main/resources/webroot/swagger-ui-standalone-preset.js:1 | `get`: element i, or for -n <= i < 0 element n + i of the n there are (`N`), None for the default outside |
| `ListTrie.List.Set` | src/main/resources/webroot/swagger-ui-standalone-preset.js:1 | `set` at an index inside the list, or from the end: that element replaced and no other; from the size on the list lengthened as `Ne` does it and then written; a list without an owner and every node it reaches stay as they were, a list with one is changed in place |
| `ListTrie.List.SetBounds` | src/main/resources/webroot/swagger-ui-standalone-preset.js:1 | `Ne` with origin 0 and its bound taken to 32 bits: cut to the first n elements or by the last -n, with the tail kept or found again in the trie and the blocks left behind, or grown, showing exactly what the function `Grown` says, blocks left by an earlier, longer list included |
| `ListTrie.List.Push` | src/main/resources/webroot/swagger-ui-standalone-preset.js:1 | `push` of any number of values: the elements as they are seen after growing, and then the values; nothing visible changed without an owner |
| `ListTrie.List.Pop` | src/main/resources/webroot/swagger-ui-standalone-preset.js:1 | `pop`: the sequence without its last element, the empty list unchanged |
| `ListTrie.List.Append` | src/main/resources/webroot/swagger-ui-standalone-preset.js:1 | the function `push` gives to `withMutations`: grow first, then write each value in place |
| `ListTrie.List.Clear` | src/main/resources/webroot/swagger-ui-standalone-preset.js:1 | `clear`: the empty sequence, in place for an owner |
| `ListTrie.List.Resize` | src/main/resources/webroot/swagger-ui-standalone-preset.js:1 | `setSize`: the plain sequence cut or filled up with undefined, exactly if growing reveals no element left in the trie |
| `ListTrie.List.Iterate` | src/main/resources/webroot/swagger-ui-standalone-preset.js:1 | `_e`, the walk over nodes with left, right and offsets: every element once and in order, the undefined ones too |
| `ListTrie.List.EnsureOwner` | src/main/resources/webroot/swagger-ui-standalone-preset.js:1 | `__ensureOwner`: the same elements and nodes under the owner asked for, a new list when one is given |
| `ListTrie.List.AsMutable` | src/main/resources/webroot/swagger-ui-standalone-preset.js:1 | `asMutable`: a list with a token nobody else has, unless it already has one |
| `ListTrie.List.DoneMutating` | src/main/resources/webroot/swagger-ui-standalone-preset.js:1 | the end of `withMutations`: the mutable list if it was altered, this list if not, with the elements of the mutable one in both cases |
| `ListTrie.List.WithMutations` | src/main/resources/webroot/swagger-ui-standalone-preset.js:1 | `withMutations` for any sequence of calls: what is seen after each of them, and the elements at the end |
| `ListTrie.List.Apply` | src/main/resources/webroot/swagger-ui-standalone-preset.js:1 | any one call: what is seen after it, from what the list showed of its trie, which is the meaning of the call on the plain sequence exactly if growing reveals no element that an earlier, longer list left there; no write at all unless the list has an owner |
| `ListTrie.List.ApplyAll` | src/main/resources/webroot/swagger-ui-standalone-preset.js:1 | any sequence of calls on a mutable list: what is seen after each, whatever it reveals |
| `ListTrie.OutcomeIff` | src/main/resources/webroot/swagger-ui-standalone-preset.js:1 | what is seen after a call is the call on the plain sequence exactly if the call is faithful, which is to say reveals nothing |
| `ListTrie.AppliedIs` | src/main/resources/webroot/swagger-ui-standalone-preset.js:1 | what each call is on a plain sequence, element by element: negative indices and sizes count from the end, what is lengthened is undefined where nothing was |
| `ListTrie.TracedApplied` | src/main/resources/webroot/swagger-ui-standalone-preset.js:1 | faithful calls one after the other are the calls on the plain sequence, and calls that the plain sequence shows to be safe are faithful |
| `ListTrie.SafeIsFaithful` | src/main/resources/webroot/swagger-ui-standalone-preset.js:1 | a call is faithful if it does not lengthen the list, or if the list does not end in undefined and grows by what is written |
| `ListTrie.Editable` | src/main/resources/webroot/swagger-ui-standalone-preset.js:1 | `je`: the node itself only for its own token, otherwise a fresh copy |
| `ListTrie.UpdateNode` | src/main/resources/webroot/swagger-ui-standalone-preset.js:1 | `be`: the trie with one slot changed, an undefined last slot taken off its array; what lies off the path to it, and every node of another token, is not written; the altered flag is exact |
| `ListTrie.RemoveAfter` | src/main/resources/webroot/swagger-ui-standalone-preset.js:1 | `removeAfter`: what lies before the bound is kept, in nodes of the token or fresh ones, and what lies behind is gone, but for a node whose children are as large as the bound: this one stays as it is |
| `ListTrie.LeafFor` | src/main/resources/webroot/swagger-ui-standalone-preset.js:1 | `xe`: the block in which an index of the trie is found |
| `ListTrie.MergeTail` | src/main/resources/webroot/swagger-ui-standalone-preset.js:1 | the merge loop of `Ne`: the old tail hangs at its place and every other index is found as before |
| `ListTrie.HangTail` | src/main/resources/webroot/swagger-ui-standalone-preset.js:1 | the part of `Ne` for a new tail offset: the old tail hangs in the trie unless its array is empty, and the new tail is empty |
| `ListTrie.GrowRoot` | src/main/resources/webroot/swagger-ui-standalone-preset.js:1 | the level loop of `Ne` upwards: levels are added exactly until the tail offset fits, and no index is lost |
| `ListTrie.ShrinkRoot` | src/main/resources/webroot/swagger-ui-standalone-preset.js:1 | the level loop of `Ne` downwards: levels without use are dropped, and no index below the new root is lost |
| `ListTrie.GrowBounds` | src/main/resources/webroot/swagger-ui-standalone-preset.js:1 | `Ne` for a larger size: what the list shows then is `Grown` of what it showed before |
| `ListTrie.CutBounds` | src/main/resources/webroot/swagger-ui-standalone-preset.js:1 | `Ne` for a smaller size: the first elements, whether the cut is in the tail, in another block, or below a root that shrinks, the tail is the block found in the trie, and behind it stay exactly the blocks that the source leaves |
| `ListTrie.SurvivesIff` | src/main/resources/webroot/swagger-ui-standalone-preset.js:1 | these are the first 32^g of them when the new tail offset is 32^g, and none when it moves elsewhere |
| `ListTrie.AtAgree` | src/main/resources/webroot/swagger-ui-standalone-preset.js:1 | what an index finds depends on the nodes covering it alone, which is why sharing nodes is safe |
| `ListTrie.PathWrite` | src/main/resources/webroot/swagger-ui-standalone-preset.js:1 | a write at one slot of the path is felt by the indices below that slot alone |
| `Digits.FitsIff` | src/main/resources/webroot/swagger-ui-standalone-preset.js:1 | an index fits under a root of k digits exactly when k shifts by 5 leave nothing |
| `ListViews.GrownElems` | src/main/resources/webroot/swagger-ui-standalone-preset.js:1 | growing keeps the elements and adds undefined ones exactly if no block between the old and the new tail offset holds an element left there |
| `ListViews.GrownPrefix` | src/main/resources/webroot/swagger-ui-standalone-preset.js:1 | and the elements that were there stay exactly if the tail is not lost to such a block |
| `ListViews.ReappearsIsLoss` | src/main/resources/webroot/swagger-ui-standalone-preset.js:1 | for one element more that is so exactly if the size is a multiple of 32 from 64 on, the array of the tail is empty and the block at its place is not: the guard of `Ne` |
| `ListViews.TailHolds` | src/main/resources/webroot/swagger-ui-standalone-preset.js:1 | a list whose last element is not undefined loses no tail |
| `ListViews.PutElems` | src/main/resources/webroot/swagger-ui-standalone-preset.js:1 | a write at an index changes that element alone |
| `ListPrograms.Run` | src/main/resources/webroot/swagger-ui-standalone-preset.js:1 | every program over many lists that share nodes, mutable and immutable, with any call: its variables are lists that stand for what a run of it shows, and if the program is safe for what it makes of plain sequences |
| `ListPrograms.Execute` | src/main/resources/webroot/swagger-ui-standalone-preset.js:1 | one statement of such a program: its result shows what the statement makes of what its list showed, and no other variable is touched |
| `ListPrograms.RunAgrees` | src/main/resources/webroot/swagger-ui-standalone-preset.js:1 | every run means what the program means on plain sequences up to its first statement that is not faithful, and if that is a call, not right after it |
| `ListPrograms.SafeRun` | src/main/resources/webroot/swagger-ui-standalone-preset.js:1 | every run of a safe program means what the program means on plain sequences |
| `ListPrograms.PlainProgramSafe` | src/main/resources/webroot/swagger-ui-standalone-preset.js:1 | a program is safe if it writes defined values only, at indices up to the size, and lengthens by what it writes |
| `ListPrograms.NeverChanges` | src/main/resources/webroot/swagger-ui-standalone-preset.js:1 | in every run, whatever it reveals, an immutable variable never changes |
| `ListPrograms.ImmutableForever` | src/main/resources/webroot/swagger-ui-standalone-preset.js:1 | in that meaning an immutable list never changes, whatever is later done to lists derived from it |
| `HashBits.PopCountCounts` | src/main/resources/webroot/swagger-ui-standalone-preset.js:1 | `se`, the bit-twiddling sum, is the number of bits set, for every 32-bit word |
| `HashBits.RankCounts` | src/main/resources/webroot/swagger-ui-standalone-preset.js:1 | `se(bitmap & bit - 1)` is the number of digits in use before a digit: the index into the packed children |
| `HashBits.SevenDigits` | src/main/resources/webroot/swagger-ui-standalone-preset.js:1 | two hashes that agree in seven 5-bit digits are equal |
| `HashTrie.DigitsLeft` | src/main/resources/webroot/swagger-ui-standalone-preset.js:1 | while two different hashes agree, a level is left on which to split them: `ne` ends within seven levels |
| `HashTrie.MergeUpdates` | src/main/resources/webroot/swagger-ui-standalone-preset.js:1 | `ne` adds an entry to what a leaf or a collision node holds, whatever the digits, and gives a canonical trie |
| `HashTrie.UpdateLeaf` | src/main/resources/webroot/swagger-ui-standalone-preset.js:1 | `Jt.update`: replaced, removed, split or turned into a collision node; the result finds exactly the changed map |
| `HashTrie.UpdateCollision` | src/main/resources/webroot/swagger-ui-standalone-preset.js:1 | `qt.update`: entries with one hash; two left become a leaf when one goes; another hash splits the node |
| `HashTrie.UpdateBitmap` | src/main/resources/webroot/swagger-ui-standalone-preset.js:1 | `Gt.update`: exact lookups and canonical form when a child is set, inserted, taken out, lifted to stand for its parent, or the node expands to 32 slots |
| `HashTrie.UpdateHashArray` | src/main/resources/webroot/swagger-ui-standalone-preset.js:1 | `Wt.update`: exact lookups, an exact child count, and packing to a bitmap node below eight children |
| `HashTrie.UpdateArrayMap` | src/main/resources/webroot/swagger-ui-standalone-preset.js:1 | `Bt.update`: up to eight entries in an array, no root for none, a trie for nine |
| `HashTrie.UpdateOpt` | src/main/resources/webroot/swagger-ui-standalone-preset.js:1 | `te`: a missing node becomes a leaf, and the flags tell exactly whether the value and the size have changed |
| `HashTrie.ExpandNodes` | src/main/resources/webroot/swagger-ui-standalone-preset.js:1 | the expansion loop: each packed child goes to the slot of its own digit |
| `HashTrie.PackNodes` | src/main/resources/webroot/swagger-ui-standalone-preset.js:1 | the packing loop: the children in use, in digit order, with the bitmap that says so |
| `HashTrie.CreateNodes` | src/main/resources/webroot/swagger-ui-standalone-preset.js:1 | `createNodes`: a canonical trie that finds the old entries and the new one |
| `HashTrie.SpliceIn` | src/main/resources/webroot/swagger-ui-standalone-preset.js:1 | the copy loop that inserts a child |
| `HashTrie.SpliceOut` | src/main/resources/webroot/swagger-ui-standalone-preset.js:1 | the copy loop that takes a child out |
| `HashTrie.EditEntries` | src/main/resources/webroot/swagger-ui-standalone-preset.js:1 | the copy of an entry array with one entry set or removed (by the last one taking its place): keys stay distinct and lookups change at the key alone |
| `HashTrie.BitmapInserted` | src/main/resources/webroot/swagger-ui-standalone-preset.js:1 | inserting at the rank of a new digit keeps every other child at its digit |
| `HashTrie.BitmapRemoved` | src/main/resources/webroot/swagger-ui-standalone-preset.js:1 | taking out at the rank of a digit keeps every other child at its digit |
| `HashTrie.SiblingLeft` | src/main/resources/webroot/swagger-ui-standalone-preset.js:1 | of two children the leaf that is left may stand for the whole node |
| `HashTrie.OnlyChild` | src/main/resources/webroot/swagger-ui-standalone-preset.js:1 | an only child that has become a leaf may stand for the whole node |
| `HashTrie.Expanded` | src/main/resources/webroot/swagger-ui-standalone-preset.js:1 | the wide form of a bitmap node of 16 children and a new one is canonical |
| `HashTrie.Packed` | src/main/resources/webroot/swagger-ui-standalone-preset.js:1 | the packed form of a wide node that falls below eight children is canonical and has lost one child alone |
| `HashTrie.UpdateMap` | src/main/resources/webroot/swagger-ui-standalone-preset.js:1 | `$t` for `set` and `remove`: the finite map with the key set or removed, its exact size, and the very same map when nothing changes |
| `HashTrie.Run` | src/main/resources/webroot/swagger-ui-standalone-preset.js:1 | every run of `set` and `remove`, for every hash function: each version represents the finite map of the operations before it |
| `OrderedMap.Update` | src/main/resources/webroot/swagger-ui-standalone-preset.js:1 | `Ae` on the list trie: the place found by the index, the write or the growth, the hole or the pop, and the compaction; each key keeps the index of an entry with this key, and the very same map when nothing changes |
| `OrderedMap.AgreesIff` | src/main/resources/webroot/swagger-ui-standalone-preset.js:1 | a map that agrees with the insertion-ordered reference goes on agreeing exactly unless a new key is set while a removed block reappears: the size a multiple of 32 from 64 on, the tail empty, a block left at its place |
| `OrderedMap.MoreSeen` | src/main/resources/webroot/swagger-ui-standalone-preset.js:1 | where a block reappears there are more entries than before, so the failure is seen |
| `OrderedMap.Filter` | src/main/resources/webroot/swagger-ui-standalone-preset.js:1 | the filter of the compaction: a new list of the entries but one, in order and without holes, made by `set` at its size |
| `OrderedMap.IndexOfList` | src/main/resources/webroot/swagger-ui-standalone-preset.js:1 | the index built anew from a list without holes: each key at its own entry |
| `OrderedMap.Iterate` | src/main/resources/webroot/swagger-ui-standalone-preset.js:1 | `__iterate` over the list trie: the entries in order, no hole |
| `OrderedMap.Clear` | src/main/resources/webroot/swagger-ui-standalone-preset.js:1 | `Ie.clear`: a new empty map, or the same one if it is empty |
| `OrderedMap.FindsEntry` | src/main/resources/webroot/swagger-ui-standalone-preset.js:1 | `get` and `size` are those of the reference, on every map that agrees with it |
| `OrderedMap.ChangeLookup` | src/main/resources/webroot/swagger-ui-standalone-preset.js:1 | the reference for one change is a change of the finite map |
| `OrderedMap.ChangeOrder` | src/main/resources/webroot/swagger-ui-standalone-preset.js:1 | and leaves the order of all other keys alone, a key set again keeping its place |
| `OrderedMap.RunAgrees` | src/main/resources/webroot/swagger-ui-standalone-preset.js:1 | every run agrees with the insertion-ordered reference up to the first step that shows removed entries, with at most max(31, size + 1) holes, and disagrees right after that step |
| `OrderedMap.Run` | src/main/resources/webroot/swagger-ui-standalone-preset.js:1 | the run of the code from the empty map, with all its versions: such states, so each version stands for the reference as long as no step shows removed entries |
| `OrderedMapRun.RunDiverges` | src/main/resources/webroot/swagger-ui-standalone-preset.js:1 | 99 calls after which, for every hash, removed entries are iterated over again: key 40 is, though it is not found and not counted |
| `LiveMap.Collection.GetEntry` | src/main/resources/webroot/swagger-ui.js:8 | `getEntry`: the first record the search of the source accepts, through the index or, for a frozen object, along the list |
| `LiveMap.SearchIsExactIff` | src/main/resources/webroot/swagger-ui.js:8 | that search finds the record that ECMA-262 asks for exactly when the key is no frozen object, or no record before its own is only loosely equal to it |
| `LiveMap.FrozenKeyFindsStringKey` | src/main/resources/webroot/swagger-ui.js:8 | in a map with a string as its only key, every frozen object that is converted to this string is found in its place |
| `LiveMap.Collection.Def` | src/main/resources/webroot/swagger-ui.js:8 | `def`: the record found gets the value and keeps its key, or there is one record more, at the end; every other record is as it was (ECMA-262, section 23.1.3.9) |
| `LiveMap.Collection.Delete` | src/main/resources/webroot/swagger-ui.js:8 | `delete`: the record found becomes empty and every other stays at its place (ECMA-262, section 23.1.3.3), and the answer says whether there was one |
| `LiveMap.Collection.Clear` | src/main/resources/webroot/swagger-ui.js:8 | `clear`: every record becomes empty (ECMA-262, section 23.1.3.1), links and index included |
| `LiveMap.Collection.StepBack` | src/main/resources/webroot/swagger-ui.js:8 | the loop over `r` and `p`: from a removed record it ends at the last one before it that is still there |
| `LiveMap.Collection.NextEntry` | src/main/resources/webroot/swagger-ui.js:8 | one step on from there: the first record behind the last one visited that is not empty |
| `LiveMap.Collection.ForEach` | src/main/resources/webroot/swagger-ui.js:8 | `forEach` for any callback that sets, deletes and clears: it makes the calls of section 23.1.3.5 of ECMA-262 and leaves the same map |
| `LiveMap.VisitsInOrder` | src/main/resources/webroot/swagger-ui.js:8 | those calls go to ever later records, so to none twice; none that is there in the end is left out, none that was gone at the start is visited |
| `LiveMap.VisitsHold` | src/main/resources/webroot/swagger-ui.js:8 | each call is given the key and the value the record holds when its turn comes, and between two calls only empty records are passed over |
| `LiveMap.AppliedJoin` | src/main/resources/webroot/swagger-ui.js:8 | calls of a callback take effect one after the other |
| `LiveMap.MapIterator.Next` | src/main/resources/webroot/swagger-ui.js:8 | the iterator of `setStrong`: the first record not empty from its index on, with the value it holds then, and none ever after the first none (ECMA-262, section 23.1.5) |
| `LiveMap.Interleave` | src/main/resources/webroot/swagger-ui.js:8 | any interleaving of an iterator's steps with calls on the map gives what the standard's iterator gives, and leaves what the calls make of the map |
| `LiveMap.TakenHold` | src/main/resources/webroot/swagger-ui.js:8 | such an iterator hands out, at ever later places, what the records hold at the time, passes over empty ones only, and ends once |
| `LiveMap.IndexFinds` | src/main/resources/webroot/swagger-ui.js:8 | the index and the search along the records agree |
| `Shapes.UnlinkedSound` | src/main/resources/webroot/swagger-ui.js:8 | the writes of `delete` keep the links sound, those of records removed before included |
| `Shapes.AppendedSound` | src/main/resources/webroot/swagger-ui.js:8 | so do the writes of `def` |
| `Shapes.CursorRule` | src/main/resources/webroot/swagger-ui.js:8 | from any record, removed or not, back to one that is there and one step on is the next record that is there |
| `Shapes.EmptiedSound` | src/main/resources/webroot/swagger-ui.js:8 | after `clear` the removed records lead back to nothing |
| `Writable.Stream.Write` | src/main/resources/webroot/swagger-ui-standalone-preset.js:13 | `write`: accepted at the end of the order, its answer tells whether the length stays below the mark, and an error after the end |
| `Writable.Stream.WriteOrBuffer` | src/main/resources/webroot/swagger-ui-standalone-preset.js:13 | `writeOrBuffer`: to `_write` at once only if nothing is being written and the stream is not corked |
| `Writable.Stream.StartWrite` | src/main/resources/webroot/swagger-ui-standalone-preset.js:13 | `M`, with acknowledgement inside `_write`: the callback then waits for a tick |
| `Writable.Stream.ClearBuffer` | src/main/resources/webroot/swagger-ui-standalone-preset.js:13 | `m`: buffered chunks go out in order until one is not acknowledged at once |
| `Writable.Stream.Acknowledge` | src/main/resources/webroot/swagger-ui-standalone-preset.js:13 | the first half of `onwrite`: the chunk leaves the length, and the buffer gets its turn |
| `Writable.Stream.OnWrite` | src/main/resources/webroot/swagger-ui-standalone-preset.js:13 | a later acknowledgement: drain handler and callback of that chunk run in this order, what they write is accepted in it, and every invariant holds again |
| `Writable.Stream.Perform` | src/main/resources/webroot/swagger-ui-standalone-preset.js:13 | what a handler calls: all it writes is accepted in order until it ends the stream, and nothing after |
| `Writable.Stream.AfterWrite` | src/main/resources/webroot/swagger-ui-standalone-preset.js:13 | `_`: drain only when the length is 0 and a write was refused, then the callback of the write, and perhaps the end; accepted is first what the drain handler writes, then what the callback writes |
| `Writable.Stream.FinishMaybe` | src/main/resources/webroot/swagger-ui-standalone-preset.js:13 | `j`: finish once, and never while a callback is owed; an ended stream that cannot finish yet owes one |
| `Writable.Stream.End` | src/main/resources/webroot/swagger-ui-standalone-preset.js:13 | `end`: a last chunk, all corks off, nothing accepted from then on |
| `Writable.Stream.Cork` | src/main/resources/webroot/swagger-ui-standalone-preset.js:13 | `cork`: one more cork, and nothing goes out for it |
| `Writable.Stream.Uncork` | src/main/resources/webroot/swagger-ui-standalone-preset.js:13 | `uncork`: with the last cork off, what is buffered is on its way |
| `Writable.Stream.FinalCallback` | src/main/resources/webroot/swagger-ui-standalone-preset.js:13 | the callback of `_final`: prefinish, and finish if nothing else is owed |
| `Writable.Stream.NextTick` | src/main/resources/webroot/swagger-ui-standalone-preset.js:13 | one tick: the callback that waits, with the drain handler before it, or the call of `_final` |
| `Writable.Stream.Run` | src/main/resources/webroot/swagger-ui-standalone-preset.js:13 | over every run of writes, ends, corks, acknowledgements and ticks the accepted chunks are exactly those that the events, the drain handlers and the callbacks write before the end, in that order; what was called back stays so |
| `Writable.Stream.LengthIsUnacknowledged` | src/main/resources/webroot/swagger-ui-standalone-preset.js:13 | in every reachable state `length` is the size of what is accepted and not acknowledged, and chunks reach `_write` in write order, one at a time |
| `Writable.Stream.WhenFinished` | src/main/resources/webroot/swagger-ui-standalone-preset.js:13 | in every reachable state finish has come once at most, and if so after the end and after the callback of `_final` if there is one, with everything written, acknowledged and called back and `pendingcb` 0 |
| `Writable.Stream.WhenSettled` | src/main/resources/webroot/swagger-ui-standalone-preset.js:13 | when nothing is under way and no cork is on, everything is called back, and the stream has finished if it was ended and drained if not |
| `NextTick.Queue.NextTick` | src/main/resources/webroot/swagger-ui-standalone-preset.js:1 | `nextTick`: at the end of the queue, a timer only for the first task outside a batch |
| `NextTick.Queue.DrainQueue` | src/main/resources/webroot/swagger-ui-standalone-preset.js:1 | `p`: tasks start in order, those enqueued meanwhile included, until all are done or one throws; none after it starts in this timer, and the batch is left where it was |
| `NextTick.Queue.FireCleanUp` | src/main/resources/webroot/swagger-ui-standalone-preset.js:1 | `h`: the interrupted batch goes before the queue and starts again behind the task that threw, up to the next one that throws |
| `NextTick.Queue.Run` | src/main/resources/webroot/swagger-ui-standalone-preset.js:1 | over every run what has been started is the first part of what has been enqueued, in order and once each, and all of it when no timer is set; enqueued is what came from outside and what started tasks enqueued |
| `NextTick.Queue.Settle` | src/main/resources/webroot/swagger-ui-standalone-preset.js:1 | letting the timers fire starts everything that is ever enqueued, and ends |
| `NextTick.OneRun` | src/main/resources/webroot/swagger-ui-standalone-preset.js:1 | a task's run takes one task off the rest and puts what it enqueues at the end |
| `NextTick.Queue.Handle` | src/main/resources/webroot/swagger-ui-standalone-preset.js:1 | one event: a timer that is set starts tasks up to one that throws, or all; what they enqueue comes behind, in order |
| `LruQueue.Queue.Hit` | src/main/resources/webroot/swagger-ui-standalone-preset.js:21 | `hit`: the id becomes the most recent one, and the least recently hit id is dropped exactly when there are too many |
| `LruQueue.Queue.Delete` | src/main/resources/webroot/swagger-ui-standalone-preset.js:21 | `delete`: the list without the id, the scan for the next live index included |
| `LruQueue.Queue.Clear` | src/main/resources/webroot/swagger-ui-standalone-preset.js:21 | `clear`: no id, and counting starts again from 0 |
| `LruQueue.Queue.Run` | src/main/resources/webroot/swagger-ui-standalone-preset.js:21 | every run keeps the queue equal to a plain recency list, never longer than the limit, with the two maps inverse and the smallest live index known |
| `LruQueue.ByRecency` | src/main/resources/webroot/swagger-ui-standalone-preset.js:21 | after any run the ids are in the order of their last hits |
| `LruQueue.MostRecent` | src/main/resources/webroot/swagger-ui-standalone-preset.js:21 | after any run of hits they are those hit last: an id left out was hit before each that is there, and none is left out below the limit |
| `LruQueue.ListingFirst` | src/main/resources/webroot/swagger-ui-standalone-preset.js:21 | the smallest live index is that of the least recent id |
| `LruQueue.ListingPush` | src/main/resources/webroot/swagger-ui-standalone-preset.js:21 | a new index at the end makes its id the most recent |
| `LruQueue.ListingWithout` | src/main/resources/webroot/swagger-ui-standalone-preset.js:21 | leaving out an index leaves out its id |
| `ArgumentTree.Tree.Get` | src/main/resources/webroot/swagger-ui-standalone-preset.js:21 | `get` (404): the id of the arguments, or none |
| `ArgumentTree.Tree.Set` | src/main/resources/webroot/swagger-ui-standalone-preset.js:21 | `set` (404): a new id for the arguments, which may have had one, and no change for any other |
| `ArgumentTree.Tree.Delete` | src/main/resources/webroot/swagger-ui-standalone-preset.js:21 | `delete` (404): the arguments given with the id lose theirs, exactly the branches that become empty go, and the id found at the leaf is forgotten; an id that is not remembered is an error |
| `ArgumentTree.Tree.Clear` | src/main/resources/webroot/swagger-ui-standalone-preset.js:21 | `clear` (404): no arguments have an id, and no branch is left |
| `ArgumentTree.ForgetsIff` | src/main/resources/webroot/swagger-ui-standalone-preset.js:21 | `delete` forgets the id it is given, exactly if that is the id its arguments have now or they are the empty list; otherwise that id stays |
| `ArgumentTree.ForgetsOther` | src/main/resources/webroot/swagger-ui-standalone-preset.js:21 | `set`, `set`, `delete` of the first id: the second id is forgotten and the first is not |
| `ArgumentTree.RunAgrees` | src/main/resources/webroot/swagger-ui-standalone-preset.js:21 | every run agrees with the plain map from ids to arguments up to the first `delete` of an outdated id, and disagrees right after it |
| `ArgumentTree.NewAgrees` | src/main/resources/webroot/swagger-ui-standalone-preset.js:21 | a run that sets only arguments without an id, as a memoizer does, agrees throughout, each list having the one id that stands for it |
| `ArgumentTree.Run` | src/main/resources/webroot/swagger-ui-standalone-preset.js:21 | the run of the code: the tree and what it remembers are those of that theorem after every sequence of `set`, `delete` and `clear` |
| `ArgumentTree.PathPresent` | src/main/resources/webroot/swagger-ui-standalone-preset.js:21 | every beginning of remembered arguments has its node, with a key for the next argument |
| `ArgumentTree.Pruned` | src/main/resources/webroot/swagger-ui-standalone-preset.js:21 | cutting an empty branch off its parent loses no arguments |
| `ArgumentTree.LeafAdded` | src/main/resources/webroot/swagger-ui-standalone-preset.js:21 | a key below the last argument but one adds exactly one list of arguments |
| `ArgumentTree.LeafRemoved` | src/main/resources/webroot/swagger-ui-standalone-preset.js:21 | and its removal takes exactly one away |
| `ArgumentTree.LeafChanged` | src/main/resources/webroot/swagger-ui-standalone-preset.js:21 | a new id for arguments that are there changes nothing else |
| `Memoizer.Memo.Call` | src/main/resources/webroot/swagger-ui-standalone-preset.js:21 | the memoized function (377, with 421 for a limit) returns what the pure function returns, nested calls included; the pure function is not called for arguments that are remembered, and without a limit once for each that is not; with a limit the remembered arguments are exactly those of a plain recency list of calls, these last |
| `Memoizer.Memo.Compute` | src/main/resources/webroot/swagger-ui-standalone-preset.js:21 | the branch that calls the original, after its nested calls: these do not remember the same arguments, so the error for circular calls is not reached |
| `Memoizer.Memo.Used` | src/main/resources/webroot/swagger-ui-standalone-preset.js:21 | what a limit adds to a call: a hit of the queue, and the result it drops leaves the tree, the results and the queue |
| `Memoizer.Memo.Delete` | src/main/resources/webroot/swagger-ui-standalone-preset.js:21 | `delete`: the result and the arguments of one id |
| `Memoizer.Memo.Forget` | src/main/resources/webroot/swagger-ui-standalone-preset.js:21 | `delete` of the memoized function, by arguments: these alone are forgotten |
| `Memoizer.Memo.Clear` | src/main/resources/webroot/swagger-ui-standalone-preset.js:21 | `clear`: no result, no remembered arguments, nothing in the queue |
| `Memoizer.Memo.Bounded` | src/main/resources/webroot/swagger-ui-standalone-preset.js:21 | with a limit no more results than that are kept |
| `Utf8.DecodesExactly` | src/main/resources/webroot/swagger-ui-standalone-preset.js:13 | the switch of `N` accepts exactly the sequences of section 3 of RFC 3629: none overlong, no surrogate, nothing above U+10FFFF |
| `Utf8.DecodesReference` | src/main/resources/webroot/swagger-ui-standalone-preset.js:13 | the whole decoder for any octets: the character there, or a replacement for one octet |
| `Utf8.Decode` | src/main/resources/webroot/swagger-ui-standalone-preset.js:13 | `N` on a part of a buffer |
| `Utf8.DecodeCodePointsArray` | src/main/resources/webroot/swagger-ui-standalone-preset.js:13 | `fromCharCode` in chunks of 4096 units gives all of them |
| `Utf8.Encode` | src/main/resources/webroot/swagger-ui-standalone-preset.js:13 | `Q`, with a limit: the octets of the longest run of whole characters within it; lone surrogates are replaced |
| `Utf8.FittingLongest` | src/main/resources/webroot/swagger-ui-standalone-preset.js:13 | that run is the longest |
| `Utf8.EncodesAllButLast` | src/main/resources/webroot/swagger-ui-standalone-preset.js:13 | without a limit `Q` encodes the whole string exactly when it does not end in two high surrogates in a row |
| `Utf8.TwoHighsLoseOne` | src/main/resources/webroot/swagger-ui-standalone-preset.js:13 | two high surrogates: one replacement, not two |
| `Utf8.RoundTrip` | src/main/resources/webroot/swagger-ui-standalone-preset.js:13 | `N` undoes `Q` for any sequence of characters |
| `Utf8.StringRoundTrip` | src/main/resources/webroot/swagger-ui-standalone-preset.js:13 | every well-formed UTF-16 string comes back, through `Q` as it is |
| `Utf8.WriteString` | src/main/resources/webroot/swagger-ui-standalone-preset.js:13 | `utf8Write` into a buffer: how much is written, and that nothing else is touched |
| `Utf8.WritesWholeCharacters` | src/main/resources/webroot/swagger-ui-standalone-preset.js:13 | what is written is the encoding of the longest whole-character prefix that fits, exactly when a character ends at `length` or all that the room holds fits |
| `Utf8.CutsCharacter` | src/main/resources/webroot/swagger-ui-standalone-preset.js:13 | a length below the room may cut a character |
| `Base64.FromByteArray` | src/main/resources/webroot/swagger-ui-standalone-preset.js:21 | `fromByteArray`, with its chunks of 16383 octets: section 4 of RFC 4648 |
| `Base64.EncodeChunk` | src/main/resources/webroot/swagger-ui-standalone-preset.js:21 | `encodeChunk`: the encoding of whole groups |
| `Base64.EncodedIs` | src/main/resources/webroot/swagger-ui-standalone-preset.js:21 | every symbol of an encoding, padding included, from table 1 of RFC 4648 and the 24-bit number of its group |
| `Base64.SymbolIs` | src/main/resources/webroot/swagger-ui-standalone-preset.js:21 | the tables `r` and `i` are that table and its inverse |
| `Base64.QuadOf` | src/main/resources/webroot/swagger-ui-standalone-preset.js:21 | shifts and masks take the four 6-bit groups |
| `Base64.EncodedJoin` | src/main/resources/webroot/swagger-ui-standalone-preset.js:21 | whole groups of three octets are encoded by themselves |
| `Base64.ToByteArray` | src/main/resources/webroot/swagger-ui-standalone-preset.js:21 | `toByteArray`: the octets, or the error for a wrong length or a string that starts with padding |
| `Base64.DecodedAt` | src/main/resources/webroot/swagger-ui-standalone-preset.js:21 | three octets hold the 24 bits of four symbols |
| `Base64.DecodedEnd` | src/main/resources/webroot/swagger-ui-standalone-preset.js:21 | how many octets there are for any placing of the padding, and the last ones from two or three symbols |
| `Base64.DigitIs` | src/main/resources/webroot/swagger-ui-standalone-preset.js:21 | the symbols that count: those of the table, and the two of the URL-safe one |
| `Base64.RoundTrip` | src/main/resources/webroot/swagger-ui-standalone-preset.js:21 | decoding undoes encoding for any octets |
| `StringDecoder.Utf8Decoder.Write` | src/main/resources/webroot/swagger-ui-standalone-preset.js:13 | `write` for any octets: what waited and what came is decoded but for a character that is not complete, which waits; one that is broken off gives one replacement |
| `StringDecoder.Utf8Decoder.End` | src/main/resources/webroot/swagger-ui-standalone-preset.js:13 | `end`: as `write`, with one replacement for octets that still wait |
| `StringDecoder.Utf8Decoder.Text` | src/main/resources/webroot/swagger-ui-standalone-preset.js:13 | `text` for any octets: all but those of a character that is not complete |
| `StringDecoder.Utf8Decoder.FillLast` | src/main/resources/webroot/swagger-ui-standalone-preset.js:13 | `fillLast` with `utf8CheckExtraBytes`: waiting octets are filled up, decoded or replaced |
| `StringDecoder.ChecksPending` | src/main/resources/webroot/swagger-ui-standalone-preset.js:13 | `utf8CheckIncomplete` finds exactly the octets at the end that begin a character of more, with its length and how many are missing |
| `StringDecoder.ExtraIs` | src/main/resources/webroot/swagger-ui-standalone-preset.js:13 | `utf8CheckExtraBytes` tells exactly whether and where the waiting character is broken off |
| `StringDecoder.DecodeUtf8` | src/main/resources/webroot/swagger-ui-standalone-preset.js:13 | any octets, cut anywhere: the outputs are what decoding at once gives, exactly if no character of which two octets or more were there is broken off behind a cut or at the end |
| `StringDecoder.StreamedIff` | src/main/resources/webroot/swagger-ui-standalone-preset.js:13 | the same of the outputs as a function of the chunks; what is missing otherwise is counted: all but one of the octets of each such character |
| `StringDecoder.ValidStreamed` | src/main/resources/webroot/swagger-ui-standalone-preset.js:13 | no valid string loses anything, however it is cut: its characters come out |
| `StringDecoder.CutLosesOne` | src/main/resources/webroot/swagger-ui-standalone-preset.js:13 | E2 82 and then 41: one replacement, where decoding at once gives two |
| `StringDecoder.DecodedSplit` | src/main/resources/webroot/swagger-ui-standalone-preset.js:13 | octets are decoded part by part wherever no character is pending or goes on |
| `StringDecoder.PendingTail` | src/main/resources/webroot/swagger-ui-standalone-preset.js:13 | what is pending depends on the octets since then alone |
| `StringDecoder.Base64Decoder.Write` | src/main/resources/webroot/swagger-ui-standalone-preset.js:13 | `write` in base64 mode: whole groups of three are encoded, the rest waits |
| `StringDecoder.Base64Decoder.End` | src/main/resources/webroot/swagger-ui-standalone-preset.js:13 | `end` in base64 mode: what waits is encoded with padding |
| `StringDecoder.EncodeBase64` | src/main/resources/webroot/swagger-ui-standalone-preset.js:13 | for any octets and every way of cutting them the outputs concatenate to the base64 of the whole |
| `StringDecoder.HeadOn` | src/main/resources/webroot/swagger-ui-standalone-preset.js:13 | groups come off the front in the same way for every cut |
| `HashBlocks.Hash.Update` | src/main/resources/webroot/swagger-ui-standalone-preset.js:1 | `update`: the blocks given to `_update` and the block buffer together are the message so far |
| `HashBlocks.Hash.Digest` | src/main/resources/webroot/swagger-ui-standalone-preset.js:1 | `digest`: the blocks are the padded message of sections 5.1.1 and 5.1.2 of FIPS 180-4, in one block more or two |
| `HashBlocks.PaddedIs` | src/main/resources/webroot/swagger-ui-standalone-preset.js:1 | the padding in octets: the message, 0x80, zeros, its length in bits, in whole blocks and no more of them than needed |
| `HashBlocks.Hash.WriteLength` | src/main/resources/webroot/swagger-ui-standalone-preset.js:1 | the length field, below and above 2^32 bits |
| `HashBlocks.LengthFieldIs` | src/main/resources/webroot/swagger-ui-standalone-preset.js:1 | its halves are the big-endian length |
| `HashBlocks.BlocksOf` | src/main/resources/webroot/swagger-ui-standalone-preset.js:1 | for any cutting of a message into calls of `update`, for both block sizes, the blocks are those of the padded message |
| `YamlQuoted.EscapeString` | src/main/resources/webroot/swagger-ui-standalone-preset.js:21 | style `W` with `A`, `C` and `U`: every unit, or pair, escaped as section 5.7 of YAML 1.2 has it |
| `YamlQuoted.Reader.ReadDoubleQuoted` | src/main/resources/webroot/swagger-ui-standalone-preset.js:21 | `readDoubleQuotedScalar` on any text: the units and the place behind the quote, or the fault |
| `YamlQuoted.Reader.ReadEscape` | src/main/resources/webroot/swagger-ui-standalone-preset.js:21 | one escape of any kind: the units it stands for and the place behind it, or the fault; for each letter of section 5.7 of YAML 1.2 the character the standard gives it, and unknown exactly if the standard has no such letter |
| `YamlQuoted.SimpleEscapeIs` | src/main/resources/webroot/swagger-ui-standalone-preset.js:21 | the reader's letters are those of section 5.7 of YAML 1.2 |
| `YamlQuoted.EscapeOfIs` | src/main/resources/webroot/swagger-ui-standalone-preset.js:21 | the writer's letters are these too, but for tab, space and slash as they are |
| `YamlQuoted.EscapeIs` | src/main/resources/webroot/swagger-ui-standalone-preset.js:21 | an escape is read as section 5.7 has it, but for the empty lines behind an escaped line break |
| `YamlQuoted.HexDigits` | src/main/resources/webroot/swagger-ui-standalone-preset.js:21 | digits of both cases and their values |
| `YamlQuoted.Reader.ReadHex` | src/main/resources/webroot/swagger-ui-standalone-preset.js:21 | the value of the digits in 32 bits, or none if one is no digit |
| `YamlQuoted.Reader.CaptureSegment` | src/main/resources/webroot/swagger-ui-standalone-preset.js:21 | `Y`: a run of plain text is appended, exactly if YAML allows all its characters |
| `YamlQuoted.Reader.SkipSeparationSpace` | src/main/resources/webroot/swagger-ui-standalone-preset.js:21 | `Q` without comments: the end of white space and line breaks, how many breaks there were, and where the last line starts |
| `YamlQuoted.SpaceIs` | src/main/resources/webroot/swagger-ui-standalone-preset.js:21 | that end is at the first other character, and the breaks are CR LF, CR and LF |
| `YamlQuoted.LineStartIs` | src/main/resources/webroot/swagger-ui-standalone-preset.js:21 | the last line starts behind the last of them |
| `YamlQuoted.PieceIs` | src/main/resources/webroot/swagger-ui-standalone-preset.js:21 | what the writer puts for a unit is one the reader's tables invert, surrogates alone or in pairs included |
| `YamlQuoted.PlainIff` | src/main/resources/webroot/swagger-ui-standalone-preset.js:21 | a unit is written as it is exactly if it is printable by section 5.1 of YAML 1.2, no byte order mark, and has no letter |
| `YamlQuoted.WrittenRead` | src/main/resources/webroot/swagger-ui-standalone-preset.js:21 | the text that the writer makes of any string is read as the string |
| `YamlQuoted.RoundTrip` | src/main/resources/webroot/swagger-ui-standalone-preset.js:21 | every sequence of UTF-16 code units comes back from its double-quoted form |
| `YamlQuoted.ReadsYamlIff` | src/main/resources/webroot/swagger-ui-standalone-preset.js:21 | the reader accepts what sections 6.5 and 7.3.1 of YAML 1.2 accept, and reads what they ask for exactly if no white space stands before a line break and no empty line behind an escaped one |
| `YamlQuoted.SpaceKept` | src/main/resources/webroot/swagger-ui-standalone-preset.js:21 | a text where white space before a line break is kept |
| `YamlQuoted.EmptyLineLost` | src/main/resources/webroot/swagger-ui-standalone-preset.js:21 | a text where an empty line behind an escaped line break is lost |
| `ReadBuffer.BufferList.Push` | src/main/resources/webroot/swagger-ui-standalone-preset.js:21 | `push` (362): the chunk is last, all nodes before it stay, and head, tail and count agree |
| `ReadBuffer.BufferList.Unshift` | src/main/resources/webroot/swagger-ui-standalone-preset.js:21 | `unshift` (362): the chunk is first, all nodes behind it stay, and head, tail and count agree |
| `ReadBuffer.BufferList.Shift` | src/main/resources/webroot/swagger-ui-standalone-preset.js:21 | `shift` (362): the head's data, and head, tail and count agree with the nodes left |
| `ReadBuffer.BufferList.CopyFromBuffer` | src/main/resources/webroot/swagger-ui-standalone-preset.js:13 | `copyFromBuffer` (152): the first n octets, and the list holds the rest, whether the cut is in a node, at its end or many nodes on |
| `ReadBuffer.BufferList.CopyFromBufferString` | src/main/resources/webroot/swagger-ui-standalone-preset.js:13 | `copyFromBufferString` (152), the same for strings |
| `ReadBuffer.BufferList.FromListPartial` | src/main/resources/webroot/swagger-ui-standalone-preset.js:13 | `fromListPartial` (152): from the head, the head exactly, or across nodes; the chunks left are the old ones without so many octets |
| `ReadBuffer.ReadState.FromList` | src/main/resources/webroot/swagger-ui-standalone-preset.js:13 | `C` (152): nothing, one chunk in object mode, all, or the first n |
| `ReadBuffer.ReadState.Read` | src/main/resources/webroot/swagger-ui-standalone-preset.js:13 | the data part of `read`: so many octets as are asked for if they are there; for more, all of them if the stream has ended, else none; without an amount all, or the first chunk while flowing; the first chunk in object mode |
| `ReadBuffer.ReadState.AddChunk` | src/main/resources/webroot/swagger-ui-standalone-preset.js:13 | `m` (152): handed out at once when the stream flows and nothing waits, else kept at the end or the front; the length counts what the list holds |
| `ReadBuffer.ReadState.Push` | src/main/resources/webroot/swagger-ui-standalone-preset.js:13 | `push`: the octets, or what the decoder gives out for them, nothing for an empty chunk or after the end; handed out at once only while flowing, with nothing kept, and outside `_read` |
| `ReadBuffer.ReadState.Unshift` | src/main/resources/webroot/swagger-ui-standalone-preset.js:13 | `unshift`: before all that waits, or handed out at once under the same condition |
| `ReadBuffer.ReadState.End` | src/main/resources/webroot/swagger-ui-standalone-preset.js:13 | `push(null)`: what waits in the decoder is kept as a last chunk, once |
| `ReadBuffer.Run` | src/main/resources/webroot/swagger-ui-standalone-preset.js:13 | every run of pushes, unshifts, the end, `resume`, `pause` and reads, with a decoder or without, gives out for each operation, and keeps, what the plain run of the chunks does |
| `ReadBuffer.StepQueues` | src/main/resources/webroot/swagger-ui-standalone-preset.js:13 | each step of that run is one of a queue of units: nothing is lost, given out twice or out of order, `unshift` included |
| `ReadBuffer.InOrder` | src/main/resources/webroot/swagger-ui-standalone-preset.js:13 | without `unshift` what comes out of a run and what is left are what was put in, in order |
| `ReadBuffer.EnteredIs` | src/main/resources/webroot/swagger-ui-standalone-preset.js:13 | what was put in is the octets pushed before the end, or what StringDecoder (156) makes of their chunks |
| `ReadBuffer.DecodedIff` | src/main/resources/webroot/swagger-ui-standalone-preset.js:13 | an ended stream with a decoder, read to its end, gives what decoding all octets at once gives, exactly if no replacement is lost to a cut |
| `ReadBuffer.CutLeaves` | src/main/resources/webroot/swagger-ui-standalone-preset.js:13 | what is left behind a cut, whether or not it is at the end of a node |
| `ReadBuffer.CutDrops` | src/main/resources/webroot/swagger-ui-standalone-preset.js:13 | a cut leaves the chunks without so many octets, no chunk empty |
| `SignedInts.WriteIntLE` | src/main/resources/webroot/swagger-ui-standalone-preset.js:13 | `writeIntLE` at any offset: the octets inside the buffer, those before it written nowhere, and nothing at all for what is refused |
| `SignedInts.WriteIntBE` | src/main/resources/webroot/swagger-ui-standalone-preset.js:13 | `writeIntBE` at any offset: two's complement octets, the last first; those before the buffer are written nowhere |
| `SignedInts.LittleExactIff` | src/main/resources/webroot/swagger-ui-standalone-preset.js:13 | the octets that `writeIntLE` puts into the buffer are those of the number, exactly unless the offset is negative, the number is too, and all its octets before the buffer are zero |
| `SignedInts.LittleLess` | src/main/resources/webroot/swagger-ui-standalone-preset.js:13 | in that case they are those of the number less one in the first octet inside the buffer |
| `SignedInts.WrongOctet` | src/main/resources/webroot/swagger-ui-standalone-preset.js:13 | -256 at offset -1: 254 where 255 is due |
| `SignedInts.ReadIntLE` | src/main/resources/webroot/swagger-ui-standalone-preset.js:13 | `readIntLE`: the signed value of the octets; an offset before the buffer is refused |
| `SignedInts.ReadIntBE` | src/main/resources/webroot/swagger-ui-standalone-preset.js:13 | `readIntBE`: the signed value of the octets taken in the other order |
| `SignedInts.BorrowIs` | src/main/resources/webroot/swagger-ui-standalone-preset.js:13 | the borrow flag is set exactly when something lies below a negative number |
| `SignedInts.WithBorrow` | src/main/resources/webroot/swagger-ui-standalone-preset.js:13 | with the flag the truncating division gives the octet of the floor division, 32-bit shifts included |
| `SignedInts.BorrowFloors` | src/main/resources/webroot/swagger-ui-standalone-preset.js:13 | with that borrow, truncation is floor division |
| `SignedInts.SignedOctets` | src/main/resources/webroot/swagger-ui-standalone-preset.js:13 | the octets of a value in range give the value back |
| `SignedInts.InRangeIff` | src/main/resources/webroot/swagger-ui-standalone-preset.js:13 | the range that is checked holds exactly the values that so many octets can hold |
| `SignedInts.WriteAndRead` | src/main/resources/webroot/swagger-ui-standalone-preset.js:13 | reading undoes writing for 1 to 6 octets in both orders, exactly if the value and the octets fit and the offset is not negative |
| `Migration.Query` | scripts/immudb_migration.py:38-42 | what the database answers: the first 999 rows with end < epochtime <= start and an id behind the last, in the order of ids |
| `Migration.Target.InsertData` | scripts/immudb_migration.py:11-35 | `insertData`: each row goes in where its id is free |
| `Migration.Target.NextBatch` | scripts/immudb_migration.py:37-54 | `nextBatch`: the rows behind an id, each once; the rows left become fewer with each page |
| `Migration.Target.RunWindow` | scripts/immudb_migration.py:56-85 | `run`: exactly the rows with end < epochtime <= start, each once |
| `Migration.Target.Migrate` | scripts/immudb_migration.py:109-134 | the loop of `main`: exactly the rows of the whole days before the start, none given to INSERT twice |
| `Migration.MigratedIs` | scripts/immudb_migration.py:117-134 | these are the rows up to the start and behind the last whole day that fits before the end |
| `Migration.Target.MigrateTwice` | scripts/immudb_migration.py:109-134 | a second run adds nothing |
| `Migration.BehindPage` | scripts/immudb_migration.py:37-48 | the rows behind a page are those behind its last id: none skipped, none repeated |
| `Migration.Tiles` | scripts/immudb_migration.py:129-134 | windows are disjoint and leave no gap |
| `Migration.CompleteIff` | scripts/immudb_migration.py:117-134 | every row between end and start is migrated, whatever the source, exactly when there is no time between them or it is a whole number of days |

## Left out

- ListTrie.List.Set: an index before the start, which needs an origin other than 0, as `shift` and `unshift` do; none of these is modelled.
- The shared empty list that `clear` and the constructor return: a new empty list stands for it; sizes from 2^30 on.
- ListTrie.List.Apply: a call with an index before the start, or beyond 2^30 elements, is not made, for the reasons above.
- Map and OrderedMap under `withMutations`, where nodes are written in place: with two keys of one hash a collision node can share its entry array with an older map, so nothing is claimed there.
- The equality `is` and the hash of Immutable: keys are equal when they are equal in Dafny, and the hash is any function of the key to 32 bits.
- OrderedMap.RunAgrees: after the first step that shows removed entries only soundness goes on (`OrderedMap.Update`); the reference is not followed further.
- OrderedMap.IndexOfList: the new index is built from the entries in order, not through the lazy sequences `map`, `flip` and `toMap`.
- Iterators over lists and hash maps, and everything in module 0 that is built on these: Set, Stack, Record, Range, lazy sequences.
- In `forEach` a callback that throws and the context argument; Set and the weak collections of the polyfill.
- Writable with `_writev`, errors given to callbacks, `destroy`, and the encoding of strings in `write`; calls of the stream from within `_write` and from the handlers of prefinish and finish. Its buffered requests are a sequence here, not a chain of nodes.
- The arguments `nextTick` passes to a task, and the `process` shims around the queue.
- The argument trees for a fixed number of arguments (409), the same walk from a fixed root, and for a single one (408), a plain array; the tree here is that for any number (404).
- Memoizer.Memo.Call: resolvers of arguments, the serialised (primitive) keys, promises and callbacks, reference counting, expiry and disposal, and the events of the memoizer; an original that calls its memoized form for ever.
- The other encodings of Buffer.
- The decoder for UTF-16 and the plain decoders of StringDecoder.
- The rounds of SHA behind `_update`, and messages of 2^53 bits and more, where the numbers of the source are no longer exact.
- The argument `noAssert`, and the unsigned and floating-point readers and writers of Buffer.
- The rest of YAML: tags, anchors, block, plain and single-quoted scalars, the warning for deficient indentation. In `YamlQuoted.ReadsYamlIff` escapes of numbers above U+10FFFF stand for the units the reader gives them.
- ReadBuffer.Run: a decoder is that of the option `encoding`, for UTF-8; `setEncoding` on a stream that holds octets already mixes these with strings. Strings given to `push`, runs in object mode, `unshift` after the end event, and when `read` asks for more (`_read`, `needReadable`, `howMuchToRead` raising the mark).
- Migration.Target.Migrate: calls that fail, and the file with the window to go on with; Python's limit on nested calls, which `nextBatch` makes one of per page; columns other than id and time of a row, and the database sessions.
- The server's own Java, which is request handling over services not in the repository, the other scripts, and the user interface in both bundles.
