# A model of the tool chain's readers, resolvers and writers, with proofs

The project models the parts of the repository where a mistake would be silent: the reader of git packs, the
resolver of debug addresses, the dependency resolver, and four smaller ones (the comment walk, the weaving of
marks into HTML, the checks on paths and links, the re-attachment of wasm sections). `dafny verify dfyconfig.toml`
(Dafny 4.11) checks all of it, with the options that file sets.

**Packs** (`Bytes`, `Cursors`, `VarInts`, `EntryHeaders`, `Deltas`, `DeltaGraphs`, `Packs`, `Repositories`,
`PackCodes`, `PackWriters`). What an entry of a pack stands for is a least fixpoint: the object that a finite chain of
deltas, by distance or by ID, makes of one written whole. `DeltaGraphs` states that meaning with no cache and no
order, `Packs` says which graph the bytes spell, and `Repositories.Repository` is the class whose `index` and `cache`
grow while `New` runs its worklist with `swap_remove`. The main theorem is the contract of `Repository.New`: with no
two objects of the pack under one ID, it succeeds exactly when every entry can be read and stands for something, and
its store is then the one store that the meaning gives, whatever order deltas were tried in. `PackWriters` writes a
list of entries as a pack, and what is read of it is that list, each entry of the kind at the bottom of its chain and
with the data its instructions make. Zlib and the object hash are functions of their input; nothing else is assumed of
them, and `ReadObject` answers an object whose ID is the one asked for with no assumption on the hash at all.

**Checkout and protocol** (`Numbers`, `TreeObjects`, `TreeWriters`, `Checkouts`, `PortablePaths`, `PktLines`). A
checkout is the recursive reading of a commit's tree, at most 128 levels deep: the first file of a path stands, for
every case of its letters, and each later one is an error. Which bytes are an entry of a tree or the first line of a
commit is said exactly, and a folder that `TreeWriters` writes is read as its files and links, each at its path, and
nothing for another repository. Its paths are made of safe parts, and `portable` answers such a path itself or
refuses. Where no link is on the way of another, `stays_inside` accepts all the links of a package if and only if none
leads out of it. An answer of the server is the pack that its first band carries: every splitting of a pack is read
back, and nothing else is read.

**Debug addresses** (`Texts`, `Subscripts`, `ElementPaths`, `DebugTables`, `BoundArrays`, `Chains`, `Resolvers`,
`PointerWalks`, `ElementAddresses`, `BoundPlaces`, `BoundReads`, `Words`, `Values`). `PointerWalks` relates paths to
places by the tables and the memory alone, with no walk, and `follow` and `resolve` answer exactly what the relation
says, through pointers and without. The two are written apart and agree on the paths the second answers, under an
exact condition; both end exactly where chains of entries do; an address goes to the path of its element and back;
every location is inside its array, and distinct subscripts are apart. What an `ARRAY[*]` is bound to is found if and
only if one way through the layouts, by the members the search looks into, leads to an array at the address, and
reading through it is reading its descriptor along that way. `Values` says what a variable reads as from its bytes,
which values each type takes, what reads back after a write, through a part of a wider cell or whole, and which reads
go past their bytes.

**Dependencies** (`Dependencies`). Which entries lead to a library, and to which folder, is said exactly; what is
reached past a URL stays inside the folder of its hash. The depth-first walk ends on every finite set of configuration
files, lists each name once with the standard library first, lists only what is reached and in one exact order,
reports only real problems, one for each entry read that does not lead to its listed folder and no others, leaves no
entry of a listed library unanswered, and, with no problem, lists exactly what is reached.

**Text and modules** (`Comments`, `Marks`, `MarkPages`, `WasmSections`). The pruned walk of the tree meets the
comments a walk of every node meets; woven HTML shows each piece of its input in the spans that were around it and in
exactly the marks that cover it, if and only if nothing after the first cut character is covered otherwise than it,
and that is what a reader of HTML sees of it (`MarkPages`); the sections put back are read after those of the
optimized module, once.

## Where the code falls short

- `decode` reads past its bytes, and so panics, for a `DATE_AND_TIME` of four to seven bytes: `size_bytes` counts
  its slot as four and the read takes eight (`crates/debug_format/src/info.rs:1719-1727`, whose comment says that
  the bytes given are all there is to read). `Values.DecodeReadsPast` says exactly when this happens, over every
  type and every number of bytes.
- `locate_in_array` and `walk` do not end on every table: an array with no dimension takes no accessor, and a
  VAR_IN_OUT is followed with none. `Resolvers.LocateEndsExactly` and `Resolvers.WalkEndsExactly` say for which
  tables all runs end: those in which, from every entry, the chain of such links ends. The run that shows it for the
  walk starts at address 1 of a memory that holds 1 everywhere, with one subscript to go.
- `resolve` and `follow` part where an array has an empty name, that of a leaf or that of a pointer: the first finds its
  elements, and the second does not, or not in every memory. `Resolvers.TwoResolversAgree` is the exact condition.
- `element_at` gives an address a path by the name of its array, and `resolve` looks that name up as the last array
  that has it. Where no other array has the address in it or at its end, the path comes back to the address if and only
  if its array is the last of its name and has scalars for elements (`ElementAddresses.AddressRoundTrip`); two arrays of
  one element named `x` are an input for which it comes to the other one (`ElementAddresses.SharedName`).
- `stays_inside` counts the folders that a link names, and does not look at which of them are links themselves. With
  `x/y` a link to `..` and `z` one to `x/y/..`, both are accepted and `z` is above the root of the package
  (`PortablePaths.ThroughALink`). `PortablePaths.StaysInsideMeans` is what is kept where no link is on the way of another.
- The search for the array an `ARRAY[*]` is bound to looks into one member of each STRUCT, the last of those that start
  the farthest at or before the offset. An array in a member that starts where a later one does is not found, though it
  is alone at its address (`BoundPlaces.HiddenMember`). `BoundPlaces.BoundArrayIsExact` is exact over the ways it sees,
  and `BoundPlaces.OnlyWayIsBound` over all ways, where no member starts inside another.
- A mark with a bound inside a character stalls `mark_html`: the loop waits for an offset it never comes to, and no mark
  after it is opened or closed before the end of the text. `Marks.AllShownIsCovered` says exactly when every piece is
  shown in its marks all the same, and `Marks.MissedMark` is an input for which one is not.

## Conventions

- A method that changes state is proved against a function of the old state; the lemmas are about the function.
- `usize` has 64 bits. Bits that do not overlap are put together with `+` where the source has `|`, and a shift is a
  product with a power of two; `Words` has the operators themselves, bit by bit.
- A 32-bit sum of a type's size wraps, as it does in a release build.
- Functions that are parameters: zlib, the hash of objects, UTF-8 decoding, the folding of case (which keeps brackets
  where they are), the memory a debugger reads, and what the file system and the cache of libraries hold.

## Model

| member | source | states |
|---|---|---|
| VarInts.Leb128IsExact | crates/fetch/src/git.rs:216-231 | reading any run of bytes that says where it ends answers its exact value, and refuses it when and only when it is longer than ten bytes or its value does not fit 64 bits |
| VarInts.Leb128RoundTrip | crates/fetch/src/git.rs:216-231 | every 64-bit number is read back from its encoding, wherever it stands |
| Cursors.Cursor.ReadLeb128 | crates/fetch/src/git.rs:216-231 | the shifting loop answers what the recursive reading of LEB128 answers, and leaves the cursor after it |
| Cursors.Cursor.ReadOffset | crates/fetch/src/git.rs:287-300 | the loop of the distance encoding answers its recursive reading, and leaves the cursor after it |
| VarInts.OffsetRoundTrip | crates/fetch/src/git.rs:287-300 | every 64-bit distance is read back from its encoding |
| VarInts.OffsetUnique | crates/fetch/src/git.rs:287-300 | what is read was the encoding of the number read: no number has two spellings |
| VarInts.OffsetIsExact | crates/fetch/src/git.rs:287-300 | a spelling is read as its value when that fits 64 bits, and refused otherwise |
| EntryHeaders.ReadHeader | crates/fetch/src/git.rs:243-274 | reading a header answers the header at the position, kind by kind, and fails as it does |
| EntryHeaders.HeaderRoundTrip | crates/fetch/src/git.rs:243-274 | headers of every kind and every size below 2^64 are read back from what gitformat-pack writes |
| EntryHeaders.HeaderIsExact | crates/fetch/src/git.rs:243-274 | a header is read, and the position after it, if and only if it stands there: the three bits of its kind, a size below 2^64 in groups of seven bits, and the distance or the ID of a base of a delta |
| Deltas.ExpandDelta | crates/fetch/src/git.rs:639-681 | the loop answers the recursive expansion, with the check after each instruction |
| Deltas.ReadMasked | crates/fetch/src/git.rs:648-658 | the bytes a mask announces are read as the number they spell, absent ones zero |
| Deltas.InstructionRoundTrip | crates/fetch/src/git.rs:645-673 | every instruction is read back from each of its spellings |
| Deltas.ExpandsToRuns | crates/fetch/src/git.rs:639-681 | a list of instructions in any spelling expands to its runs joined exactly when every copy is inside the base and the length is the announced one: the early check refuses nothing else |
| Deltas.OnlyInstructionsExpand | crates/fetch/src/git.rs:639-681 | whatever expands is a list of valid instructions, and expands to their runs |
| DeltaGraphs.Graph.MeaningIsUnique | crates/fetch/src/git.rs:403-469 | with no collision, an offset stands for at most one object, over all chains of deltas |
| DeltaGraphs.Graph.LookIsSound | crates/fetch/src/git.rs:406-469 | what is found from a sound index and cache is what the pack means |
| DeltaGraphs.Graph.LookIsComplete | crates/fetch/src/git.rs:406-469 | what the pack means is found, unless it waits for an ID that is not indexed: reading never fails on it |
| DeltaGraphs.Graph.BadMeansNothing | crates/fetch/src/git.rs:406-469 | what reading fails on stands for nothing |
| DeltaGraphs.Graph.ExtensionIsSound | crates/fetch/src/git.rs:438-466 | what a read adds to the cache is sound and changes no indexed object |
| DeltaGraphs.Graph.ChainFails | crates/fetch/src/git.rs:406-446 | an object comes to whatever the end of its chain of deltas comes to when that is not an object |
| DeltaGraphs.Graph.IndexGrows | crates/fetch/src/git.rs:351-354 | indexing a resolved delta keeps the index sound and every registered entry registered |
| DeltaGraphs.Graph.MissingWaitsForAnEntry | crates/fetch/src/git.rs:427-433 | what waits for an ID waits for that of an entry strictly below it in its chain |
| DeltaGraphs.Graph.StuckOnNothing | crates/fetch/src/git.rs:355-357 | no chain of deltas makes an object of anything a stuck worklist is left with |
| DeltaGraphs.Graph.StuckIsNotResolvable | crates/fetch/src/git.rs:355-357 | a pack the worklist is stuck on has an entry that stands for nothing |
| DeltaGraphs.Graph.StoreIsMeaning | crates/fetch/src/git.rs:336-360 | once every entry is registered the index names exactly the objects the pack holds |
| DeltaGraphs.Graph.StoreIsUnique | crates/fetch/src/git.rs:336-360 | there is one such store, so the order deltas were tried in does not show |
| Packs.Pack.SpellsWhatIsSpelled | crates/fetch/src/git.rs:364-392 | the graph of a pack is the one its bytes spell, and no reader of the bytes answers `IncompletePack` |
| Packs.ReadAnnounced | crates/fetch/src/git.rs:365-372 | the signature, the version and the count of a pack, each refused as the source refuses it |
| Packs.ReadLink | crates/fetch/src/git.rs:417-445 | reading an entry answers what is written at its offset |
| Packs.ReadEntry | crates/fetch/src/git.rs:376-389 | reading an entry of the scan answers it and where the next one is |
| Packs.ApplyDelta | crates/fetch/src/git.rs:452-464 | a delta applied to its base, whose announced length is read and not looked at |
| PackCodes.AnnouncedIsExact | crates/fetch/src/git.rs:365-372 | a pack announces a number of entries if and only if it starts with "PACK", version 2 and that number, each of four bytes, the highest first |
| PackCodes.DeltaIsExact | crates/fetch/src/git.rs:452-466 | a delta makes an object of its base if and only if it is the two lengths and instructions whose runs are the data of the object, whose kind is that of the base |
| PackCodes.WholeIsExact | crates/fetch/src/git.rs:306-324 | an entry is read as an object written whole, with the position after it, if and only if a header of its kind and size stands there and what follows inflates to its data |
| PackWriters.Script.WrittenIsRead | crates/fetch/src/git.rs:364-469 | a pack written for a list of entries, whole or deltas by distance or by ID with lists of instructions, is read as that list: the scan answers where they were written, and each stands for the object its chain says, of the kind at the bottom and with the data its instructions make, and for no other one |
| PackWriters.Script.WrittenIsStored | crates/fetch/src/git.rs:336-360 | so such a pack can be loaded, and its store has the objects that were written, each under its ID, and no other |
| Repositories.StepBack | crates/fetch/src/git.rs:419-425 | a step by a distance keeps the chain descending, and no more than `pack.len()` of them are pushed unless the distance is zero |
| Repositories.StepNamed | crates/fetch/src/git.rs:426-433 | a step to an indexed base arrives at an object, within the bound |
| Repositories.Repository.constructor | crates/fetch/src/git.rs:337-342 | an empty index and cache, over the graph the pack spells |
| Repositories.Repository.WalkDown | crates/fetch/src/git.rs:407-450 | the walk ends at the base of a chain of linked deltas and answers what the unbounded reading answers there: the length guard refuses only a delta at no distance from its base |
| Repositories.Repository.ReadObjectAt | crates/fetch/src/git.rs:406-469 | what is read is what the cache-free recursive reading gives, and every object cached is one it gives |
| Repositories.Repository.IndexFirstPass | crates/fetch/src/git.rs:364-392 | the scan fails as the entries do, and otherwise registers the whole objects and answers the deltas |
| Repositories.Repository.TryOne | crates/fetch/src/git.rs:350-353 | a tried delta is indexed, or waits for an ID and changes nothing, or stands for nothing |
| Repositories.Repository.TryPending | crates/fetch/src/git.rs:346-357 | a round tries each pending delta exactly once, from the last to the first, in spite of `swap_remove`; what is left is what waits, and a round that takes nothing off leaves the list as it was |
| Repositories.Repository.Load | crates/fetch/src/git.rs:343-360 | rounds end; success registers every entry, and failure of a readable pack means that some entry stands for nothing |
| Repositories.Repository.New | crates/fetch/src/git.rs:336-360 | with no collision it succeeds if and only if the entries can be read and each stands for an object, and its store is then the meaning of the pack; `IncompletePack` is answered only in a state no pending delta can leave |
| Repositories.Repository.ReadObject | crates/fetch/src/git.rs:471-475 | every indexed ID is read, as the object it names and whose ID it is, with no assumption on the hash |
| Checkouts.TreeIterator.Next | crates/fetch/src/git.rs:582-634 | the iterator answers the entry at its position and goes to the next one |
| TreeObjects.Reading.EntryIsExact | crates/fetch/src/git.rs:582-634 | an entry is read, and the position after it, if and only if it stands there: digits of a mode its kind has, a space, its name with no zero byte, a zero byte and its ID, the name one safe part of a path |
| TreeObjects.Reading.EntryRoundTrip | crates/fetch/src/git.rs:582-634 | an entry written with any mode of its kind, in octal, is read back wherever it stands |
| TreeObjects.ModeIsExact | crates/fetch/src/git.rs:595-608 | a mode has a kind if and only if it is the one git gives it, three bits that are not looked at aside: 040000 a folder, 100644 or 100755 a file, 120000 a link, 160000 another repository |
| Numbers.OctalIsExact | crates/fetch/src/git.rs:588-594 | digits are read as a number if and only if they are that number in octal, below the limit |
| TreeObjects.Reading.FilesAreSafe | crates/fetch/src/git.rs:505-556 | every file of a tree is at a path of safe parts, at most 129 of them less its depth |
| TreeObjects.Reading.CommitTreeIsExact | crates/fetch/src/git.rs:493-503 | a commit answers a tree if and only if it starts with "tree ", the digits of the ID in either case, as many as the format has, and a line feed; every other one is an invalid commit |
| TreeObjects.Reading.CommitTreeRoundTrip | crates/fetch/src/git.rs:493-503 | a commit written for a tree answers it, whatever its other lines are |
| TreeWriters.Writer.FolderIsRead | crates/fetch/src/git.rs:505-556 | a folder of files, links, other repositories and folders, written as tree objects with those modes and held by a store, is read as exactly its files and links, each at its path with its own content or target, and nothing for another repository; it is refused if and only if it is more than 128 folders deep |
| TreeWriters.Writer.CommitIsRead | crates/fetch/src/git.rs:478-556 | so is the folder of a commit, whatever else the commit says |
| Checkouts.Package.Insert | crates/fetch/src/tree.rs:97-118 | an entry is added unless one has its path in some case of its letters, and is then an error of its kind |
| Checkouts.CheckoutEntry | crates/fetch/src/git.rs:525-553 | inserting what one entry is in a package is inserting its files, in order, with the errors they make |
| Checkouts.CheckoutTree | crates/fetch/src/git.rs:505-556 | the recursive checkout inserts the files of the tree in the package, in order, and fails as their reading does |
| Checkouts.Checkout | crates/fetch/src/git.rs:478-490 | the package has the files of the recursive reading of the commit's tree, of each path the first in any case of its letters, and an error for each other one; the store of the repository is as it was |
| Checkouts.FilledMeans | crates/fetch/src/tree.rs:100-118 | inserting files in order leaves at a path the first file that has it in some case of its letters, if that is its own path, and an error, in order, for each file whose path was taken |
| Checkouts.NoErrorIsDistinct | crates/fetch/src/tree.rs:100-118 | there is no error if and only if no two files have one path in some case of its letters |
| Checkouts.EntriesAreApart | crates/fetch/src/tree.rs:97-104 | no two entries of a package differ only by case |
| Checkouts.CheckedOutIsPortable | crates/fetch/src/lib.rs:209-214 | `portable` answers a checked-out path itself or refuses it, and never another one |
| PortablePaths.MakePortable | crates/fetch/src/archive.rs:268-287 | the loop over the parts answers the portable path |
| PortablePaths.PortableMeans | crates/fetch/src/archive.rs:268-302 | a path is accepted if and only if it is relative and every part that counts is a portable name, and its answer has those parts |
| PortablePaths.PortableOrRefused | crates/fetch/src/archive.rs:268-302 | a path of plain parts is answered as it is or refused |
| PortablePaths.PortableNameIsExact | crates/fetch/src/archive.rs:289-302 | a name is portable if and only if no system keeps it for a device, in any case of its letters and with anything after its first dot, has a character one does not take, or ends with one that is dropped |
| PortablePaths.CheckStaysInside | crates/fetch/src/archive.rs:306-321 | the loop that counts folders answers whether the link stays inside |
| PortablePaths.StaysInsideByName | crates/fetch/src/archive.rs:306-321 | a link is accepted if and only if it is relative and the folders it names, one by one, are never above the root |
| PortablePaths.StaysInsideMeans | crates/fetch/src/archive.rs:304-321 | over all the links of a package, none of which passes through another, all are accepted if and only if following none of them, through the links it ends at, ever leaves the package |
| PortablePaths.ThroughALink | crates/fetch/src/archive.rs:304-321 | a concrete pair of links that are accepted, of which one leads out through the other |
| PktLines.ReadPacket | crates/fetch/src/git.rs:696-709 | reading a packet answers the one at the position, and fails as it does |
| PktLines.WritePacket | crates/fetch/src/git.rs:711-722 | writing a packet appends its encoding |
| PktLines.PacketRoundTrip | crates/fetch/src/git.rs:696-722 | every packet is read back from what writes it |
| PktLines.PacketsRoundTrip | crates/fetch/src/git.rs:696-722 | so is every list of packets written one after the other |
| PktLines.ReadAnswer | crates/fetch/src/git.rs:929-958 | the two loops answer the recursive reading of a response |
| PktLines.CarriedIsRead | crates/fetch/src/git.rs:929-958 | a pack in band-one packets, split anywhere, with other bands between and other sections before, is read back byte for byte |
| PktLines.OnlyCarriedIsRead | crates/fetch/src/git.rs:929-958 | whatever is answered was carried so by the response |
| Texts.DecimalRoundTrip | crates/debug_format/src/lib.rs:207-213 | every i64 is parsed back from its decimal |
| Subscripts.FlattenIndices | crates/debug_format/src/info.rs:1698-1715 | the loop answers the checked fold over the dimensions, and takes one accessor for each |
| Subscripts.FlatIndexInRange | crates/debug_format/src/info.rs:1698-1715 | subscripts in bounds have an index below the number of elements |
| Subscripts.FlatIndexIsInjective | crates/debug_format/src/info.rs:1698-1715 | two tuples of subscripts with one index are one tuple |
| Subscripts.FlattenIsExact | crates/debug_format/src/info.rs:1698-1715 | the checked arithmetic answers the row-major index of subscripts in bounds and refuses the others, and nothing else |
| ElementPaths.WriteElementPath | crates/debug_format/src/lib.rs:187-213 | the loop from the last dimension writes the path of the element |
| ElementPaths.SubsOfIsExact | crates/debug_format/src/lib.rs:187-206 | the subscripts written for an index are in bounds and have that index |
| ElementPaths.TokenizeAccessors | crates/debug_format/src/info.rs:1671-1694 | the loop answers the recursive tokenizing |
| ElementPaths.TokenizeBracketed | crates/debug_format/src/info.rs:1671-1694 | subscripts are read back from what writes them, whatever follows |
| ElementPaths.TokenizeIsExact | crates/debug_format/src/info.rs:1671-1694 | a text is read as accessors if and only if it is `^`s, names after dots and numbers in brackets with commas between them, one after the other, and the accessors are what they stand for |
| ElementPaths.ElementPathRoundTrip | crates/debug_format/src/lib.rs:187-213 | printing the element of an index, tokenizing the path and flattening the subscripts gives the index back, for negative bounds and any number of dimensions |
| ElementPaths.FlatPathRoundTrip | crates/debug_format/src/lib.rs:187-213 | where bounds span more than 64 bits, or there are none, the path is read back as the index itself |
| BoundArrays.CheckedBytesIsExact | crates/debug_format/src/info.rs:1165-1171 | the checked product of the extents is the exact one when it fits 64 bits, and is refused otherwise |
| BoundArrays.RowsAreCounted | crates/debug_format/src/info.rs:1177-1181 | once that product has passed, no unchecked one of the search overflows |
| BoundArrays.ElementIsExact | crates/debug_format/src/info.rs:1249-1266 | the elements of an array are those asked for if and only if they are one scalar, all texts being one, or one entry of the table that is no scalar, whether the array names its element by an entry or by the scalar |
| BoundArrays.SearchFrom | crates/debug_format/src/info.rs:1153-1201 | the search appends the arrays that start at an offset of an array, itself or in its element |
| BoundArrays.SearchIn | crates/debug_format/src/info.rs:1206-1243 | the search appends those that start at an offset of a value of a type |
| BoundArrays.FindBoundArray | crates/debug_format/src/info.rs:1123-1148 | leaving at the second candidate answers what looking at all of them does: the one candidate there is |
| BoundArrays.BoundArrayIsInside | crates/debug_format/src/info.rs:1123-1148 | the answer has the asked rank and element, starts at the address, and lies in a descriptor of the table |
| BoundArrays.ElementIsInside | crates/debug_format/src/info.rs:1123-1148 | every element its subscripts reach is inside that descriptor's bytes |
| BoundPlaces.RowStartsExactly | crates/debug_format/src/info.rs:1176-1196 | there is a row of the asked rank and element at an offset of an array if and only if the division says so, and only one |
| BoundPlaces.WaysAt | crates/debug_format/src/info.rs:1123-1243 | the arrays of the asked rank and element that the tables put at an address, in a descriptor, in its elements or in the members that start the farthest before it, are those the search finds, each as often as there are ways to it |
| BoundPlaces.BoundArrayIsExact | crates/debug_format/src/info.rs:1123-1148 | an array is answered if and only if one way by such members leads to one at the address, and it is that one |
| BoundPlaces.OnlyWayIsBound | crates/debug_format/src/info.rs:1123-1148 | where no member of a STRUCT starts inside another, that is so over every way there is |
| BoundPlaces.WholeIsBound | crates/debug_format/src/info.rs:1123-1148 | an array variable of scalars that is alone at its address is bound to whoever asks for its rank and scalar there, with its own dimensions, stride and number of elements |
| BoundPlaces.HiddenMember | crates/debug_format/src/info.rs:1216-1225 | concrete tables with one array at the address, in a member that starts where a later one does: it is not found |
| BoundReads.FoundReadsTheSame | crates/debug_format/src/info.rs:1123-1243 | any accessors name in an array that is found, in a row or in an element, what those of the way to it and then they name in its descriptor, each member on the way being the one its name is looked up as |
| BoundReads.BoundReadsTheWhole | crates/debug_format/src/info.rs:1123-1148 | so what is read through the bound array is what the one way to it that is seen and the same accessors read in a descriptor |
| Resolvers.LocateInArray | crates/debug_format/src/info.rs:1820-1886 | the loop answers the recursive location, and ends, on every table whose chains of arrays with no dimension end |
| Resolvers.LocateEndsExactly | crates/debug_format/src/info.rs:1843-1871 | every run of that loop ends, over all accessors, addresses, positions and types, if and only if from every entry the chain of arrays with no dimension to their elements ends |
| Resolvers.StepMoves | crates/debug_format/src/info.rs:1843-1871 | a turn takes an accessor, or goes one link along such a chain |
| Resolvers.Walk | crates/debug_format/src/info.rs:819-967 | the walk answers its recursive form and ends on every table whose chains end, through VAR_IN_OUT members too |
| Resolvers.StrideMoves | crates/debug_format/src/info.rs:828-965 | a step takes an accessor, or goes one link along a chain of arrays with no dimension and VAR_IN_OUTs |
| Resolvers.WalkEndsExactly | crates/debug_format/src/info.rs:819-1050 | every run of the walk and of its finish ends, over all cursors, accessors and memories, if and only if from every entry that chain ends |
| Resolvers.StepsMatch | crates/debug_format/src/info.rs:884-938 | a step into a layout is a step of the walk |
| Resolvers.WalkLocates | crates/debug_format/src/info.rs:819-967 | walking from a type comes to the value that its layout gives |
| Resolvers.ElementAgrees | crates/debug_format/src/info.rs:749-766 | for a path with subscripts whose stem is not empty and names no leaf and no pointer, `follow` answers the value `resolve` does |
| Resolvers.ShadowedStem | crates/debug_format/src/info.rs:749-766 | under an empty stem, or one that names a leaf too, `follow` answers nothing in any memory |
| Resolvers.PointerStem | crates/debug_format/src/info.rs:749-766 | under a stem that names a pointer, it answers nothing in a memory that cannot be read |
| Resolvers.TwoResolversAgree | crates/debug_format/src/info.rs:467-499 | whenever `resolve` answers a path, `follow` answers a value with the same address, type, enumeration, bits and scope in every memory if and only if the path is a leaf with a name, or its stem is not empty and names no leaf and no pointer |
| PointerWalks.FollowIsExact | crates/debug_format/src/info.rs:749-1050 | on well-formed tables and in every memory, a path is followed to a place if and only if the tables and the memory relate them: the longest prefix that a table names starts it, a member or an element takes its accessors, a pointer whose four bytes spell an address other than 0 leads by `^` to its target there, a VAR_IN_OUT leads on with no accessor, to the array it is bound to when it has no target, and 0 is null |
| PointerWalks.ResolveIsExact | crates/debug_format/src/info.rs:467-499 | on well-formed tables a path is resolved to a place if and only if it is the place of the last leaf of its name, or the one its accessors choose in the last array named before its first `[`, through STRUCTs and arrays |
| PointerWalks.StemIsExact | crates/debug_format/src/info.rs:752-766 | a stem starts at the last leaf of its name, or else at its last pointer, or else at its last array, at the address and with the type the table says |
| PointerWalks.DerefIsExact | crates/debug_format/src/info.rs:1000-1101 | a pointer leads on, or stops the path, exactly where the bytes it holds and its type say |
| ElementAddresses.LocateInIsPlace | crates/debug_format/src/info.rs:1820-1886 | on well-formed tables the checked 32-bit arithmetic refuses nothing, and every answer is inside its array |
| ElementAddresses.StepIsPlace | crates/debug_format/src/info.rs:1843-1871 | a step stays inside the value it is in, and its sums are exact |
| ElementAddresses.ElementsAreApart | crates/debug_format/src/info.rs:1698-1715 | elements at distinct subscripts have no byte in common |
| ElementAddresses.FindElementAt | crates/debug_format/src/info.rs:733-745 | the search answers the path of the element that starts at an address |
| ElementAddresses.ElementAtIsExact | crates/debug_format/src/info.rs:733-745 | an address is given a path if and only if an element of an array starts there, and it is the path of the first such array, none before it being too large for 32 bits |
| ElementAddresses.ElementResolves | crates/debug_format/src/info.rs:733-745 | the path of the element at an address resolves to what the array its name is looked up as has at the subscripts of the element |
| ElementAddresses.AddressRoundTrip | crates/debug_format/src/info.rs:733-745 | of an array that is the last of its name, or alone at the address, the path of the element at the address resolves to that address if and only if the array is the last of its name and its elements are scalars |
| ElementAddresses.SharedName | crates/debug_format/src/info.rs:733-745 | a concrete table of two arrays of one name, in which the path of the first one's element resolves to the second one's |
| Words.ReplacedBits | crates/debug_format/src/lib.rs:310-317 | writing a part sets its bits to the low ones written and leaves every other bit of the cell |
| Words.ExtractIsExact | crates/debug_format/src/lib.rs:295-305 | what is read of any part of any cell is its bits, with zeros above them and for those past 64 |
| Words.ReplaceIsExact | crates/debug_format/src/lib.rs:307-317 | writing any part of any cell makes one of as many bytes, but no more than eight, with the bits of the part replaced and every other bit kept |
| Words.ExtractAfterReplace | crates/debug_format/src/lib.rs:300-317 | what is read of a part after a write is the low bits of what was written |
| Words.WritesStayApart | crates/debug_format/src/lib.rs:300-317 | a write to one part leaves what is read of a disjoint one |
| Words.WritesCommute | crates/debug_format/src/lib.rs:310-317 | writes to disjoint parts make the same cell in either order |
| Words.CodeSpellsBits | crates/debug_format/src/lib.rs:321-326 | the bytes of a cell spell the number that its bits do |
| Values.DecodeReadsPast | crates/debug_format/src/info.rs:1718-1763 | decoding reads past its bytes if and only if it has four to seven for a DATE_AND_TIME, or fewer than four for a text whose slot wraps around 32 bits |
| Values.DecodeIsExact | crates/debug_format/src/info.rs:1718-1763 | what is read of a variable is a value its type holds, the one its bytes spell: the lowest first, in two's complement, a text as far as its length, its capacity and its bytes go; it is unavailable exactly when there are fewer bytes than its slot has |
| Values.EncodesWhatItHolds | crates/debug_format/src/info.rs:1765-1808 | a value is written as a type if and only if it is in the range IEC 61131-3 gives the type |
| Values.EncodeIsExact | crates/debug_format/src/info.rs:1765-1808 | a number or a truth value is written as a whole slot that spells it, with its sign |
| Values.DecodeUndoesEncode | crates/debug_format/src/info.rs:1718-1808 | a number, a float or a truth value decodes to itself, a CHAR given as a byte to the same code point of four |
| Values.DecodeUndoesEncodeText | crates/debug_format/src/info.rs:1755-1803 | a text decodes to as much of it as its slot holds while an `i32` counts it, and to nothing past that |
| Values.ReadAfterWrite | crates/debug_format/src/info.rs:112-130 | through a part, a value reads back if and only if its own bytes spell a number below two to the width of the part; the rest of the cell is as it was |
| Values.WholePartHoldsAll | crates/debug_format/src/info.rs:112-130 | a part as wide as its type holds every value of it, negative ones too |
| Values.WriteLeavesOthers | crates/debug_format/src/info.rs:112-130 | a write through one part leaves the value another one has |
| Dependencies.World.OneFolder | crates/db/src/dependencies.rs:360-463 | the folder an entry names does not depend on which fetched library its reader may not leave |
| Dependencies.World.StepIsExact | crates/db/src/dependencies.rs:360-540 | an entry leads to a library if and only if it is the URL of one that is there, in the folder the cache has for its hash, or a path to one that does not leave the fetched library it is written in |
| Dependencies.World.OneHash | crates/db/src/dependencies.rs:421-462 | entries of one hash lead to one folder, whatever their URLs |
| Dependencies.World.CauseIsTrue | crates/db/src/dependencies.rs:360-540 | when an entry leads nowhere, what is said to be wrong with it is |
| Dependencies.World.ReachedByTrail | crates/db/src/dependencies.rs:329-356 | a place is reached if and only if a trail of such entries leads to it from the workspace |
| Dependencies.World.TrailStaysInside | crates/db/src/dependencies.rs:409-418 | past a URL and then any number of paths, a trail is inside the folder that the cache has for the hash of that URL |
| Dependencies.World.ReadIsContained | crates/db/src/dependencies.rs:409-418 | so a library that is read is the standard one, one that paths alone lead to from the workspace, or inside a fetched one |
| Dependencies.World.ReachedIsListed | crates/db/src/dependencies.rs:329-356 | without a problem, whatever entries lead to, in any number of steps, is listed, at the folder they lead to |
| Dependencies.World.ListsAreExact | crates/db/src/dependencies.rs:280-313 | without a problem, the list is exactly what is reached from the workspace |
| Dependencies.World.ListIsWhole | crates/db/src/dependencies.rs:329-356 | every entry of the workspace and of a listed library leads to a listed library, or its problem is said |
| Dependencies.World.EntryIsRead | crates/db/src/dependencies.rs:337-355 | reading some entries and then one more is reading them all, in order |
| Dependencies.World.LibraryIsRead | crates/db/src/dependencies.rs:530-538 | listing a library and walking its entries is reading the entry that leads to it |
| Dependencies.World.ListIsInOrder | crates/db/src/dependencies.rs:530-537 | a listed library is asked for by the workspace or by a library before it, and is reached |
| Dependencies.World.ConsistentHasNoProblem | crates/db/src/dependencies.rs:465-540 | where every reached entry leads to a library and every name to one folder, nothing can be a problem |
| Dependencies.SortIsStable | crates/db/src/dependencies.rs:308-312 | sorting problems by where they start orders them, loses none, and keeps those that start together in order |
| Dependencies.Resolver.constructor | crates/db/src/dependencies.rs:291-305 | the standard library is the one thing read before the walk |
| Dependencies.Resolver.Walk | crates/db/src/dependencies.rs:329-356 | a walk ends, keeps what was read and said, adds the libraries that the depth-first order gives, and answers every entry of its place and of every library it added |
| Dependencies.Resolver.WalkEntry | crates/db/src/dependencies.rs:338-354 | one turn of that loop does so for its entry |
| Dependencies.Resolver.Read | crates/db/src/dependencies.rs:465-540 | a library is read, or what is wrong with it is due and nothing changes |
| Dependencies.Resolver.ReadNew | crates/db/src/dependencies.rs:530-539 | a library that was not read is listed, under its first folder, before those it uses |
| Dependencies.Resolver.Refuse | crates/db/src/dependencies.rs:474-529 | what is wrong with a library, with who asked for it first and who asks now, whether it is new, and otherwise that it is the one that was read |
| Dependencies.Resolve | crates/db/src/dependencies.rs:280-313 | each name once, the standard library first, the others in depth-first order of first asking and each of them reached; every entry of a listed library listed or reported; the problems, in order of where they start, are those of the entries read, one for each that does not lead to the folder its name was first asked for at; none if and only if every entry read leads to its listed folder; and then exactly what is reached is listed |
| Dependencies.World.ProblemsAreExact | crates/db/src/dependencies.rs:329-356 | what a walk says is wrong is what is wrong with each entry it reads, in depth-first order, against the folders asked for first, and nothing is if and only if all of them lead there |
| Comments.Starts | crates/db/src/syntax.rs:156-161 | where openers are, in order, all of them |
| Comments.HoldsWhenOpens | crates/db/src/syntax.rs:166-169 | the binary search says whether a node holds an opener |
| Comments.NothingOpens | crates/db/src/syntax.rs:148-150 | a nested tree with no opener in its range has no comment |
| Comments.OutermostInOrder | crates/db/src/syntax.rs:144-146 | the outermost comments are disjoint and in the order of the text |
| Comments.OutermostIsExact | crates/db/src/syntax.rs:171-186 | a comment is met by a walk of every node if and only if it is a node of one of the three kinds, over its bytes, with no comment above it |
| Comments.GoOn | crates/db/src/syntax.rs:187-191 | climbing to a next sibling or out of the tree loses no node that is left |
| Comments.FindComments | crates/db/src/syntax.rs:151-193 | the pruned walk ends and answers the comments a walk of every node meets, in the order of the text |
| Marks.BoundsAreAll | crates/doc/src/highlight.rs:517-519 | the bounds are where marks start and end, each once, in order |
| Marks.CoveringStays | crates/doc/src/highlight.rs:521-528 | between two bounds the same marks cover |
| Marks.Sync | crates/doc/src/highlight.rs:541-559 | the output stays well nested and shows what it showed, and exactly the marks that cover the offset are open |
| Marks.MarkHtml | crates/doc/src/highlight.rs:513-606 | the output is well nested and shows the pieces of the input, in order, in the spans that were around them and in the marks that cover the last bound that was met; in exactly the marks that cover them where no later piece depends on a bound inside a character |
| MarkPages.MarkedIsRead | crates/doc/src/highlight.rs:513-606 | a reader of HTML that pairs each `</mark>` with a `<mark>` and each `</span>` with a `<span>` reads the output to its end with nothing open; the popups aside it sees the texts of the input, in order, each in the spans it was in and, around them, the marks that cover the last bound met, with their class and title |
| MarkPages.MarkIsRead | crates/doc/src/highlight.rs:552-559 | what opens a mark is an element of its class and title, with the text of its popup in a span of its own |
| MarkPages.HtmlIsRead | crates/doc/src/highlight.rs:354-366 | characters of a source, escaped, and spans among them are read back, each character with as many bytes as UTF-8 takes for it |
| MarkPages.LettersAreRead | crates/doc/src/highlight.rs:585-598 | the pieces are the characters of the source, each at the offset UTF-8 has it at |
| Marks.CoveringIsExact | crates/doc/src/highlight.rs:521-528 | the marks that cover a byte are those that start at or before it and end after it, in the order they were given |
| Marks.AllShownIsCovered | crates/doc/src/highlight.rs:564-567 | every piece is shown in exactly the marks that cover it if and only if, after the first piece with a bound strictly inside it, no piece is covered by other marks than that one |
| Marks.LastBoundFreezes | crates/doc/src/highlight.rs:564-567 | a piece before the first one that is cut is shown in the marks that cover it, and every one from there on in those that cover the cut one |
| Marks.LastBoundIsCovered | crates/doc/src/highlight.rs:564-567 | up to that piece, the last bound that was met is covered by the marks that cover the piece |
| Marks.StaysBehind | crates/doc/src/highlight.rs:564-567 | a bound inside a character is never met, and no later one is: every piece from there on is shown in the same marks |
| Marks.MissedMark | crates/doc/src/highlight.rs:564-567 | a concrete input: a mark from inside a character on covers the next one, which is shown in no mark |
| WasmSections.WriteLeb128 | crates/cli/src/compiler.rs:503-515 | the loop writes the LEB128 of a number |
| WasmSections.UnsignedOfEncoded | crates/cli/src/compiler.rs:503-515 | what it writes is read back as an unsigned integer of any width the number fits |
| WasmSections.Find | crates/cli/src/compiler.rs:472-481 | the data of the first section of a name, before anything the parser cannot read, in a custom section or another |
| WasmSections.FoundIsShort | crates/cli/src/compiler.rs:488-497 | a section that is found can be written again: its size still fits 32 bits |
| WasmSections.SectionReadsBack | crates/cli/src/compiler.rs:488-499 | a section written at the end of a module is read there, with its name and its bytes |
| WasmSections.PreserveSection | crates/cli/src/compiler.rs:471-500 | the section is appended if the original has it and the optimized module lacks it, and nothing changes otherwise |
| WasmSections.PreservedReads | crates/cli/src/compiler.rs:471-500 | a module stays one, its sections unchanged, the one put back after them |
| WasmSections.PreserveLoadBearingSections | crates/cli/src/compiler.rs:453-468 | the optimized module's bytes and sections come first, then each listed section it lacked and the original had, once, with its own bytes |
| WasmSections.PreservedTwice | crates/cli/src/compiler.rs:453-500 | doing it twice is doing it once |

## Left out

- Sockets, HTTP, redirects, temporary folders, permissions and the writing of files: a response is its bytes, a world of files a set of functions.
- Zlib, SHA-1, SHA-256, tree-sitter and wasm-opt: functions of their input, or a tree that is given. UTF-8 decoding and case folding are functions too.
- Packages are maps from paths to leaves and lists of errors; what `crates/fetch/src/tree.rs` then does with them, sorting, filtering and reporting the errors, is not part of this model.
- PortablePaths.StaysInsideMeans: nothing is said of a link that passes through another before its end, but that it can lead out; the check sees one link at a time.
- EntryHeaders.HeaderRoundTrip: an ID is any bytes of the format's length, and its printed form is only what a commit names its tree by.
- Repositories.Repository.New: an entry is read at its offset in the pack; a checksum at the end of the pack is not looked at, as in the source.
- Resolvers.TwoResolversAgree: names hold no `[`; `resolve` answers an array's stride as the size of a whole scalar element where `follow` answers the size of its type, and the agreement says so.
- MarkPages.MarkedIsRead: classes and titles hold no `>`, which `escape` writes as `&gt;`, and a popup is text in spans, as `popup_html` writes it.
- PackWriters.Script.WrittenIsRead: that the stream of an entry inflates to its data is assumed of the zlib it is read with.
- Resolvers.Walk: the display path of a cursor, the variable a pointer names and the frames of a stack are not modelled, so a place is an address, a type and a scope.
- BoundPlaces.BoundArrayIsExact: over the ways the search sees; a way into a member that another one hides is not one of them.
- BoundReads.BoundReadsTheWhole: a way into a member whose name is looked up as another one has no path, and nothing is said of it; how many bytes are said to be at a place is left aside, being a stride in an array and the size of the type in a layout.
- Values.ReadAfterWrite: texts are read and written whole, no part of a cell being one.
- Values.DecodeUndoesEncode: floats are bit patterns, and the names of an enumeration's variants are not modelled.
- Dependencies.Resolve: files do not change while they are read, but for a fetch that adds the folder of its hash; the wording of problems is their kind and what they are about. A library reached both freely and through a fetched one is checked against the walls of the first way only, as in the source: the entries read are those of the first way in.
- Comments.FindComments: rows and columns of a range are not modelled, and children are nested and in order, as tree-sitter's are.
- WasmSections.PreserveLoadBearingSections: sections other than custom ones are bytes; which sections `wasmparser` refuses, for a name or for what is in a body, is a function.
- Frame-local tables, line tables, retained and located maps, and the messages of errors are easier than what is here and add no kind of proof.
