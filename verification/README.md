# A Dafny model of elf_loader

`elf_loader` maps an ELF object's segments into memory, indexes its symbols, relocates it eagerly or
lazily, and runs its init and fini functions. This project models that core for x86_64 (64-bit words,
4096-byte pages, little-endian) and proves what the code promises about it.

To verify the project, run `dafny verify dfyconfig.toml` (Dafny 4.11).

## How the model is laid out

| files | what they model |
|---|---|
| `Words.dfy`, `Memories.dfy` | machine words and byte-addressed memory; a mapping, a copy, a bss fill and a relocated word are all *patches*, and patches that do not overlap may be applied in any order |
| `Loader.dfy`, `ElfHeaders.dfy`, `SegmentImages.dfy`, `LoadedObjects.dfy`, `ProgramHeaders.dfy` | `src/loader.rs` with the three `Mmap` implementations, which objects load, and what that leaves in memory |
| `ElfHash.dfy`, `VersionTables.dfy`, `VersionSections.dfy`, `VersionBinding.dfy` | `src/version.rs`: the unrolled ELF hash, the two-pass version array, the sections it is read from, and what a versioned symbol binds to |
| `Bits.dfy`, `Symbols.dfy`, `HashBuilder.dfy` | `src/symbol.rs`: the GNU hash table, against a linear scan; a builder of well-formed tables, with and without versions |
| `Actions.dfy`, `Relocation.dfy`, `RelocationResults.dfy`, `RelocationTables.dfy` | `src/relocation.rs`: the three relocation loops, symbol resolution, failure, order, scope growth |
| `LazyBinding.dfy` | the lazy binding protocol: preparation, `dl_fixup`, the lazy scope |
| `Lifecycle.dfy` | handles, relocation outcomes, init and fini functions, unmapping |
| `InitialStack.dfy` | mini-loader's rewrite of the initial process stack |

Code that changes things step by step is a method over a class or an array (`AddressSpace`, `ElfBuf`,
`TableIterator`, `Image`, `Component`, the stack array). Each such method is tied to a function of its
inputs and the old state, and the properties are lemmas about those functions.

What the environment decides is a parameter: the address the kernel or the allocator answers with
(`Source.place`), the requests the kernel turns down (`Source.denies`), the caller's `pre_find`, the global scope, the values of ifunc resolvers, and which
entries a `deal_unknown` handler takes. A panic, a handler's error and an access to unmapped memory are
outcomes (`Panicked`, `Rejected`, `Faulted`, `Crashed`), not preconditions.

## Where the code keeps its promises only under a condition

Each of these is a theorem about the code as it is, with the exact condition under which it meets the
property.

- **The lowest segment.** It is brought in by the reservation mapping only: its file offset is not
  rounded down to a page and its bss is never filled. `SegmentImages.LowestExact` gives a test on the
  headers (`LowestSafe`, different for each backend) that holds exactly when the segment comes out right
  for every file that carries these headers and every earlier memory. `UnsafeLowestFails` constructs the
  file and the memory otherwise; the file differs from the given one in at most one byte, outside the
  headers. The test knows about bytes that the headers fix: a bss that lies over a zero of the program
  header table reads as zero. A libc anonymous mapping with an unaligned offset is refused by the kernel.
- **Finding the program headers in memory.** The table of a segment that ends where the table ends is not
  found, because the range test is half-open at both ends, and `create_exec` passes no headers to search
  (`ProgramHeaders.TableNotFound`). The result is the file's table exactly when it begins in and ends strictly
  inside a segment's file bytes and `e_phentsize * e_phnum / 56` is `e_phnum` (`HeaderTableAgreement`).
- **`count_syms`** is the size of the symbol table exactly when some symbol is hashed or only the null
  symbol precedes the hashed part (`Symbols.CountSyms`).
- **A versioned request in a library without version sections** panics as soon as that library hashes a
  symbol of that name (`Symbols.VersionlessTableAborts`). So appending a library can break a relocation
  that succeeded: `RelocationResults.ScopeMonotonicity` says exactly when, in terms of the names the new
  libraries hash and the versions they lack.
- **`REL_SYMBOLIC`** writes S, not S + A, although the comment above it says S + A: the word is the psABI's
  exactly when the addend is zero (`RelocationResults.WrittenValue`).
- **`REL_COPY`** takes the bytes from the object itself: from where the definition is exactly when the
  definition's base is the object's own (`RelocationResults.CopiedFrom`).
- **Lazy binding** ends where eager binding ends if and only if the two agree on the symbol of every slot
  (`LazyBinding.LazyObjectEndsEager`, `Agrees`). A library always agrees on symbols that are not local and
  are asked for without a version (`DylibAgrees`); eager binding then has a value that lazy binding does
  not find in exactly two situations: it is `pre_find`'s and the lazy scope has no library, or it is the
  null of an undefined weak symbol. An executable's lazy scope leaves the executable itself out, although
  its eager scope begins with it: `ExecAgrees` says exactly for which symbols that makes no difference,
  and `ExecDisagrees` shows an executable for which it does.
- **`ElfRelocation::new`** relocates every entry exactly once exactly under the condition of
  `RelocationTables.ExactlyOnce`.
- **`dl_elf_hash`** of a name that begins with a NUL byte is 0.
- **mini-loader** started without any argv loads the first environment entry's name and starts the program
  with a count that has wrapped below zero (`InitialStack.RewriteStack`). It changes the values of six
  auxiliary tags: AT_PHDR, AT_PHNUM, AT_PHENT, AT_ENTRY, AT_EXECFN and AT_BASE.

## Model

| member | source | states |
|---|---|---|
| `Words.WordRoundTrip` | src/relocation.rs:102-107 | The eight little-endian bytes of a stored word read back as that word |
| `Memories.ApplyAllHit` | src/loader.rs:532-546 | Where non-overlapping patches meet an address, one of them alone decides its byte |
| `Memories.OrderFree` | src/loader.rs:532-546 | Order and repetition of non-overlapping patches do not matter |
| `Loader.PageBounds` | src/segment.rs:9-10 | Masking gives the greatest page boundary below an address, and with the page size less one added the least above it |
| `Loader.CreateSegments` | src/loader.rs:184-227 | The min/max loop computes the reservation of the header list |
| `Loader.LowestFound` | src/loader.rs:193-202 | The offset and file size kept are those of the first header with the lowest address |
| `Loader.HighestFound` | src/loader.rs:203-205 | The largest end kept is an upper bound that some segment attains |
| `Loader.ReservationIsTight` | src/loader.rs:193-212 | The reserved range is the smallest page-aligned interval that covers every segment |
| `Loader.SegmentGeometry` | src/loader.rs:230-259 | The rounded mapping starts below the segment by its in-page offset, in memory and in the file alike |
| `Loader.EndPages` | src/loader.rs:266-273 | The file page that holds the end of the file part maps onto the memory page that `fill_bss` clears the rest of |
| `Loader.TwoPartClear` | src/loader.rs:262-291 | Clearing the rest of a page and then the whole pages after it is one run of zeros |
| `Loader.MapThenClear` | src/loader.rs:538-543 | Mapping a segment and filling its bss is one patch: file bytes, then zeros to the end of its last page |
| `Loader.TailIsMapped` | src/loader.rs:270-274 | The bytes `fill_bss` clears by plain stores are mapped exactly when the file reaches their page, there are none, or the loader copied |
| `Loader.MapThenCopy` | src/loader.rs:131-155 | Mapping a region and copying the file bytes into it is one patch |
| `Loader.AddressSpace.Mmap` | src/mmap/mmap.rs:15-44 | Outcome, region, `need_copy` and resulting memory of a mapping call, for the three backends, refusals included |
| `Loader.AddressSpace.MmapAnonymous` | src/mmap/mmap.rs:46-66 | The range reads as zeros and nothing else changes, or the request is turned down and nothing changes |
| `Loader.AddressSpace.MmapSegment` | src/loader.rs:131-155 | Success exactly when the mapping is accepted and, where the loader copies, the bytes exist and the protection is set; memory after each outcome |
| `Loader.AddressSpace.FillBss` | src/loader.rs:262-291 | Success exactly when there is no bss, or the bytes to clear are mapped and the anonymous mapping is accepted; then memory is the old one with zeros from the end of the file bytes to the end of the last page |
| `Loader.AddressSpace.LoadOne` | src/loader.rs:538-543 | One turn of the loop applies the segment's patch, or fails, or does nothing for the lowest page |
| `Loader.AddressSpace.Reserve` | src/loader.rs:516-523 | The reservation is made, with the lowest segment's file bytes, exactly when it is accepted |
| `Loader.AddressSpace.LoadImpl` | src/loader.rs:507-548 | The load succeeds exactly when every mapping is accepted and no store faults, and then memory is the reservation followed by every segment's patch |
| `SegmentImages.MappedImage` | src/loader.rs:532-546 | A segment that the loop maps carries its image whatever the other segments and the earlier memory are |
| `SegmentImages.LowestByte` | src/loader.rs:245-258 | The lowest segment's bytes are those of the reservation mapping: nothing later touches them |
| `SegmentImages.LowestExact` | src/loader.rs:199-222 | The lowest segment is right for every file that carries the headers and every earlier memory, if and only if the headers pass a test |
| `SegmentImages.UnsafeLowestFails` | src/loader.rs:199-222 | Headers that fail the test have a file that carries them, one byte away from the given one, and a memory with which the image is wrong |
| `SegmentImages.SafetyCarriesOver` | src/loader.rs:507-517 | The test gives the same answer for every file with the same headers |
| `SegmentImages.ImageCorrect` | src/loader.rs:532-546 | After loading, every segment reads as its header says: file bytes, then zeros up to p_memsz |
| `SegmentImages.BackendsAgree` | src/mmap/mmap.rs:15-66 | Fd mapping, anonymous mapping with copy and allocation with copy leave identical bytes in every segment, whatever was there before |
| `SegmentImages.HeaderOrder` | src/loader.rs:184-227 | Any order of the headers reserves the same range, is accepted alike and leaves the same memory byte for byte |
| `SegmentImages.BssFrame` | src/loader.rs:262-291 | `fill_bss` clears exactly what it must and touches neither file bytes nor another segment's pages |
| `LoadedObjects.LoadsExactly` | src/loader.rs:507-548 | Where the kernel turns nothing down, an object is accepted if and only if its headers and the file's length allow it: no empty mapping, offsets that suit the backend, the bytes to copy in the file, and the page whose rest is cleared in the file |
| `LoadedObjects.DenialStops` | src/loader.rs:131-155 | One mapping or protection request for the whole range or for a segment's pages that the kernel turns down makes the load fail |
| `LoadedObjects.LoadOrdinary` | src/loader.rs:507-548 | An ordinary object (page-disjoint segments that lie in the file, the lowest one page-aligned and without bss) loads, every segment byte is at an address given by the headers and is the file's or zero, and nothing outside the reservation changes |
| `LoadedObjects.LoadFrame` | src/loader.rs:516-548 | A load changes no byte outside the reserved range |
| `ElfHeaders.ElfBuf.PrepareEhdr` | src/loader.rs:423-426 | The whole stack buffer is read, so a shorter file is refused, and a header that does not validate is an error |
| `ElfHeaders.ElfBuf.PreparePhdr` | src/loader.rs:391-442 | The headers are the file's table whether they come from the stack buffer or the heap buffer |
| `ElfHeaders.ValidExactly` | src/loader.rs:74-88 | A header is valid exactly with the magic, class 64, version 1 and machine 62 at their byte positions |
| `ElfHeaders.VariantExact` | src/loader.rs:507-514 | The files that carry the same headers are exactly those that agree on the bytes of the ELF header and of the table's whole entries |
| `ElfHeaders.WrittenIsCarried` | src/loader.rs:423-442 | Round trip: any list of headers, written behind an ELF header, is read back by the loader, whatever follows |
| `ProgramHeaders.CoveringLoad` | src/format/mod.rs:537-552 | The search returns a PT_LOAD whose file range contains both ends of the table, and nothing only when there is none |
| `ProgramHeaders.FirstCovering` | src/format/mod.rs:537-552 | Of several such segments the first in table order is taken |
| `ProgramHeaders.HeaderTableAgreement` | src/format/mod.rs:534-554 | The headers found in loaded memory equal those parsed from the file, if and only if the table begins in the file bytes of a PT_LOAD and ends before they do, and the entry size gives e_phnum entries |
| `ProgramHeaders.PtPhdrAgreement` | src/loader.rs:351-356 | A PT_PHDR that describes the table leads to the file's headers |
| `ProgramHeaders.TableNotFound` | src/format/mod.rs:537-553 | A table flush with the end of its segment, or an empty header list, is not found |
| `ElfHash.FastRoundTracks` | src/version.rs:360-365 | The low 28 bits of the fast state are the gABI state, round after round |
| `ElfHash.ShortRound` | src/version.rs:349-358 | For the first five bytes a gABI round is shift and add: no bit reaches the top |
| `ElfHash.FoldExact` | src/version.rs:360-365 | A round's folding drops the top four bits and mixes them into bits 4 to 7 |
| `ElfHash.DlElfHash` | src/version.rs:347-372 | The unrolled, late-masked hash is the gABI hash of every non-empty name that does not begin with NUL |
| `VersionTables.TableIterator.Next` | src/version.rs:121-134 | An iterator yields the linked entries in order, as many as counted |
| `VersionTables.StrideIsLink` | src/version.rs:121-134 | Striding over entries visits those their links lead to exactly when the entries are contiguous |
| `VersionTables.AuxesFollowLinks` | src/version.rs:199-212 | The auxiliaries read by stride are those that vda_next and vna_next lead to, when contiguous |
| `VersionTables.LargestDef` | src/version.rs:275-285 | The first pass finds the largest index of the definitions |
| `VersionTables.LargestNeed` | src/version.rs:286-298 | The first pass finds the largest index of the requirements' auxiliaries |
| `VersionTables.LastWriteStays` | src/version.rs:300-329 | The last entry written to an index is the one that stays |
| `VersionTables.VersionArrayIsMap` | src/version.rs:260-336 | With distinct indices a slot holds a version exactly when an entry says so, and is uninitialised exactly when none does |
| `VersionTables.ArrayDefines` | src/version.rs:299-329 | Whatever the indices, a slot holds a version exactly when an entry writes it, and it is the version of one that does |
| `VersionTables.FillDefs` | src/version.rs:302-314 | The second pass stores the first auxiliary name of every definition; it panics exactly when a definition has none |
| `VersionTables.FillNeeds` | src/version.rs:315-329 | The second pass stores every requirement's auxiliaries |
| `VersionTables.NewVersion` | src/version.rs:260-336 | The two passes build the version array and no write falls outside it, whatever the links say |
| `VersionSections.DefinitionsBack` | src/version.rs:16-90 | Definitions laid out field by field as LSB 10.7 says are read back, each with its index, own name and hash |
| `VersionSections.RequirementsBack` | src/version.rs:16-90 | Requirements and their auxiliaries laid out as LSB 10.7 says are read back, each version with its index, name and hash |
| `VersionSections.NewVersionOfSections` | src/version.rs:260-336 | Round trip: from laid-out sections with distinct indices, a slot of the array holds a version if and only if a definition or a requirement gives its index that name and hash |
| `VersionSections.BytesAreLaidOut` | src/version.rs:16-90 | Every list of fields that fit their widths has bytes that lay it out |
| `VersionBinding.RequestOfSections` | src/version.rs:385-400 | A symbol asks for the name and hash that the sections list under its index, hidden as its bit says; for none under 0 and 1 |
| `VersionBinding.BindsByVersion` | src/relocation.rs:139-183 | A symbol with a version binds to the first answer, for its name and version, in the first library that has a usable one, and is null only if undefined, weak and answered nowhere |
| `VersionBinding.HiddenAnswer` | src/version.rs:402-418 | A hidden request is answered by its own version only |
| `Symbols.ComputeHash` | src/symbol.rs:41-47 | The loop computes the 32-bit wrapping GNU hash |
| `Symbols.HashGrows` | src/symbol.rs:41-47 | The empty name hashes to 5381, and a byte more multiplies by 33 and adds, modulo 2^32 |
| `Symbols.InfoWithVersion` | src/symbol.rs:127-133 | A versioned request carries the gABI hash of its version name and accepts no other version |
| `Symbols.BloomNeverRejects` | src/symbol.rs:176-187 | Read by mask and shift, the bloom filter never rejects a name it was given |
| `Symbols.ChainStep` | src/symbol.rs:201-221 | Comparing tagged hashes hides no candidate, and the tag tells whether the bucket goes on |
| `Symbols.NothingAfterChain` | src/symbol.rs:215-217 | Past the end of its bucket's chain a name cannot occur |
| `Symbols.WalkChain` | src/symbol.rs:198-222 | The chain walk terminates and gives what a linear scan from the bucket's first symbol gives |
| `Symbols.Lookup` | src/symbol.rs:174-223 | Bloom filter, bucket and chain give exactly what a linear scan of the hashed symbols gives |
| `Symbols.UnversionedExact` | src/symbol.rs:174-223 | Without a version the result is the lowest-index hashed symbol of that name, and none exactly when there is none |
| `Symbols.VersionedExact` | src/version.rs:402-418 | With a version the result is the lowest-index hashed symbol of that name with that version or, for a request that is not hidden, with a default version; none exactly when there is none |
| `Symbols.RequirementIsOwnVersion` | src/version.rs:385-400 | A symbol asks for its own version under its ELF hash, and for none if it is local or global |
| `Symbols.LookupVersioned` | src/format/dylib.rs:287-302 | The whole versioned lookup, from the two strings to the symbol, returns exactly the first symbol of that name and version, if it is usable |
| `Symbols.SectionsMakeReady` | src/version.rs:260-336 | The array built from the version sections is ready for versioned lookups exactly when every hashed symbol's index is defined and (for distinct indices) entries carry ELF hashes |
| `Symbols.CrashExactly` | src/version.rs:402-418 | A lookup crashes exactly when the first candidate not passed over has no version to check |
| `Symbols.VersionlessTableAborts` | src/version.rs:404 | In a table without versions a versioned request aborts exactly when a hashed symbol has the name |
| `Symbols.CountSyms` | src/symbol.rs:49-64 | The count is the size of the symbol table, if and only if something is hashed or only the null symbol precedes |
| `Symbols.LookupFilter` | src/symbol.rs:227-234 | A symbol found is of that name, defined, and of a usable binding and type |
| `Symbols.UsableExactly` | src/arch/mod.rs:130-157 | Usable symbols are those with a section, a global, weak or unique binding and one of six types, bit by bit |
| `Symbols.LookupUsable` | src/symbol.rs:227-234 | The filtered lookup over the hash table gives the filtered scan |
| `HashBuilder.BuiltIsWellFormed` | src/symbol.rs:19-38 | Every list of symbols has a well-formed table, for every number of buckets, bloom size and shift |
| `HashBuilder.BuildKeepsSymbols` | src/symbol.rs:19-38 | Arranging symbols by bucket loses and invents none |
| `HashBuilder.BuildAndLookup` | src/symbol.rs:174-223 | Round trip: a name is found in the built table exactly when a symbol of that name went in |
| `HashBuilder.BuiltIsReady` | src/symbol.rs:149-167 | Every list of symbols with a choice of versions has a well-formed table that is ready for versioned lookups |
| `HashBuilder.BuildAndLookupVersioned` | src/version.rs:402-418 | Round trip with versions: a name and a version are found exactly when a symbol of that name went in at that version |
| `Relocation.SearchScope` | src/relocation.rs:154-169 | Asking each library's hash table in order gives the scope search that the relocation theorems are about |
| `Relocation.Image.WriteVal` | src/relocation.rs:102-107 | A word is stored at base plus offset, wrapping, or the access faults |
| `Relocation.Image.RelocateRelative` | src/relocation.rs:304-311 | The loop performs the planned actions; a first entry of another type panics before any write |
| `Relocation.Image.RelocateDynrel` | src/relocation.rs:313-379 | The loop performs the planned actions of the dynamic entries, up to the first that fails |
| `Relocation.Image.RelocatePltrel` | src/relocation.rs:241-275 | The loop performs the planned actions of the PLT entries, up to the first that fails |
| `Relocation.Image.RelocateEager` | src/relocation.rs:76-85 | The three lists run in order relative, dynamic, PLT, up to the first failure |
| `RelocationResults.FindInScopeExact` | src/relocation.rs:154-169 | The search binds to what the first library that does not pass offers, and to nothing exactly when all pass |
| `RelocationResults.DefineExact` | src/relocation.rs:139-183 | A symbol's definition: itself if local, the first offer of the scope, or null for an undefined weak one |
| `RelocationResults.ResolveExact` | src/relocation.rs:260-262 | S is the caller's finder's answer, or else the address of the definition |
| `RelocationResults.WrittenValue` | src/relocation.rs:331-378 | Every word written has the psABI's value at base plus offset, if and only if a symbolic entry has addend zero |
| `RelocationResults.EagerResult` | src/relocation.rs:241-379 | After a successful run with a handler that takes nothing, every relative entry, every GLOB_DAT, 64, DTPOFF64 and RELATIVE entry and every PLT entry has its psABI value at base plus offset (64: iff addend zero), every COPY entry has its bytes, the rest are NONE entries, and every other byte is unchanged |
| `RelocationResults.GoesExactly` | src/relocation.rs:331-378 | Which entries can be processed, by list and type: target mapped, symbol resolvable, copy range readable, or taken by the handler |
| `RelocationResults.EagerCompletesExactly` | src/relocation.rs:241-379 | Eager relocation succeeds if and only if every entry can be processed |
| `RelocationResults.ConvertExact` | src/relocation.rs:22-36 | A definition's address is null, the ifunc resolver's answer for type 10, or base plus value |
| `RelocationResults.InfoSplits` | src/arch/mod.rs:66-74 | r_info is the symbol index above and the type below 32 bits |
| `RelocationResults.CopiedFrom` | src/relocation.rs:355-366 | A copy moves the bytes of the defining symbol's size, from the definition's address if and only if its base is the object's own |
| `RelocationResults.EagerOrder` | src/relocation.rs:253-331 | Permuting entries within each list gives the same memory |
| `RelocationResults.FailureIsPrefix` | src/relocation.rs:331-378 | A run fails exactly when some entry cannot be processed, and memory is then what the entries before the first such one leave |
| `RelocationResults.RejectExactly` | src/relocation.rs:375-376 | An entry is an error exactly when its symbol is unresolvable or its type unknown and the handler does not take it |
| `RelocationResults.ScopeMonotonicity` | src/relocation.rs:139-183 | Appending libraries keeps a run successful, if and only if no null weak symbol's versioned request meets, in them, a hashed symbol whose version cannot be checked; only those null words (and copies of them) can change |
| `RelocationResults.LibraryExact` | src/symbol.rs:227-234 | A library passes, or aborts the search, exactly according to its first hashed symbol of the name that is not passed over |
| `RelocationResults.AbortsMeeting` | src/relocation.rs:154-169 | The search aborts exactly when it reaches a library whose first candidate's version cannot be checked |
| `RelocationResults.GrowthKeepsPlan` | src/format/exec.rs:107-114 | An entry bound otherwise than to null is bound to the same word after the scope grows |
| `RelocationResults.GrowthOfNull` | src/relocation.rs:170-181 | An entry bound to null keeps its target after the scope grows, unless a version check aborts |
| `RelocationResults.ReadyScopeNeverAborts` | src/version.rs:402-418 | Libraries with complete version tables never abort a search, and unversioned requests abort in none |
| `RelocationResults.ExecBindsSelfFirst` | src/format/exec.rs:96-114 | An executable's own definitions come before its libraries' |
| `RelocationTables.ExactlyOnce` | src/relocation.rs:216-239 | The three lists partition the union of the two tables, if and only if the counts fit and the tables end together or lie apart |
| `RelocationTables.ApartExact` | src/relocation.rs:226-233 | Two tables share no entry exactly when one is empty, they do not overlap, or they are out of step |
| `RelocationTables.LoopsFollowTables` | src/relocation.rs:216-239 | The eager loops process DT_RELA in table order and then DT_JMPREL, or DT_RELA alone where DT_JMPREL is its tail |
| `LazyBinding.RelocatePltrelLazy` | src/relocation.rs:277-302 | The loop prepares every slot and then the two GOT words, up to the first failure; after success the component is at GOT + 8 and the resolver at GOT + 16 |
| `LazyBinding.PrepareLazyBind` | src/arch/x86_64.rs:53-62 | The word at GOT + 8 reads as the component, the word at GOT + 16 as the resolver, or the access faults |
| `LazyBinding.RelocateLazy` | src/relocation.rs:76-84 | The lazy branch of `relocate_impl`, with its panics for a missing GOT and missing scopes |
| `LazyBinding.LazyCompletes` | src/relocation.rs:61-99 | Lazy relocation succeeds if and only if the other lists do, there is a GOT, every PLT entry is a jump slot or ifunc entry with a mapped slot and, if there are any, the GOT words are mapped and a scope is set |
| `LazyBinding.DlFixup` | src/relocation.rs:110-127 | One fixup writes the found address into its own slot and returns it, or panics without a write |
| `LazyBinding.FixupExactly` | src/relocation.rs:110-127 | A fixup stores its value at base plus offset exactly when its entry is a jump slot of a readable symbol and a value is found |
| `LazyBinding.PrepareIsPatches` | src/relocation.rs:280-297 | With disjoint slots the base is added exactly once to each link-time word |
| `LazyBinding.LazyFindExact` | src/format/mod.rs:176-189 | The lazy scope is the finder and then the scope search, except that with no library it finds nothing |
| `LazyBinding.FixupFinds` | src/relocation.rs:117-123 | A fixup finds a value exactly when a finder answers or a library offers the name, and which one |
| `LazyBinding.LazyValueIsEager` | src/relocation.rs:110-127 | For every symbol (local, versioned or plain) and all scopes, what a fixup finds is the eager value if and only if the two agree |
| `LazyBinding.DylibAgrees` | src/format/dylib.rs:61-66 | A library agrees on every plain symbol, and finds a value exactly when eager binding has one that is not eager-only |
| `LazyBinding.ExecAgrees` | src/format/exec.rs:52-57 | An executable agrees on a plain symbol, if and only if a finder answers, it does not offer the symbol, its libraries do not, or both addresses coincide |
| `LazyBinding.ExecDisagrees` | src/format/exec.rs:52-57 | An executable and a library, with well-formed tables, for which lazy and eager binding write different addresses |
| `LazyBinding.SlotWord` | src/relocation.rs:110-127 | At every point of every run an unbound slot holds its link-time word plus base, and a bound one the eager word if and only if the two agree on its symbol |
| `LazyBinding.BoundStaysBound` | src/relocation.rs:110-127 | A bound slot never changes while the scopes stay fixed |
| `LazyBinding.GotStaysSet` | src/arch/x86_64.rs:53-62 | Over every run of fixups GOT + 8 holds the component and GOT + 16 the resolver |
| `LazyBinding.LazyEndsEager` | src/relocation.rs:277-302 | Once all slots are bound, in any order and with repeats, memory is the eager PLT result except GOT words 1 and 2, if and only if the two agree on every slot |
| `LazyBinding.LazyObjectEndsEager` | src/relocation.rs:61-99 | The same for the whole object: lazy relocation plus fixups ends where eager relocation ends, if and only if the two agree on every slot; GOT words 1 and 2 hold the component and the resolver |
| `Lifecycle.Component.CallInit` | src/format/mod.rs:95-113 | The init function and then the init array run in order |
| `Lifecycle.Component.DropInner` | src/format/mod.rs:287-296 | Fini functions run, if initialised, before the mapping goes |
| `Lifecycle.RelocatesExactly` | src/relocation.rs:61-99 | Relocation succeeds, eagerly, if and only if every entry can be processed and RELRO is set, and lazily, whatever RELRO is, under the condition of `LazyBinding.LazyCompletes` |
| `Lifecycle.Component.Relocate` | src/relocation.rs:76-98 | Relocation consumes the object: what the relocation loops and the RELRO step do to memory decides between init and marking, dropping after an error or a panic, and, for an executable without entries, neither |
| `Lifecycle.Component.UpgradeHandle` | src/format/mod.rs:303-308 | An upgrade succeeds exactly while a strong reference is left |
| `Lifecycle.LifeCycle` | src/format/mod.rs:287-338 | Over all runs: fini functions run only after every init function, at most once each, when the last strong reference goes, and before the single unmapping |
| `Lifecycle.GoneForGood` | src/format/mod.rs:303-308 | Once the last strong reference is gone nothing more happens |
| `Lifecycle.HandlesCounted` | src/format/mod.rs:303-338 | Over every run the strong count is the handles gained, by cloning and by upgrading while one is left, less those given up |
| `Lifecycle.RawLifeCycle` | src/format/mod.rs:420-445 | A component registered from raw parts runs no init or fini function and is unmapped once |
| `InitialStack.ParseBack` | mini-loader/src/main.rs:102-107 | A stack laid out as the psABI says reads back as the argv, environment and auxiliary vector it was made from |
| `InitialStack.FindAuxv` | mini-loader/src/main.rs:131-139 | The walk over the environment finds argc and the auxiliary vector |
| `InitialStack.UpdateAux` | mini-loader/src/main.rs:194-214 | The auxiliary vector gets its new values in place and nothing else changes |
| `InitialStack.OnlyHandledChange` | mini-loader/src/main.rs:197-211 | Tags stay as they are and in order; only six tags' values change |
| `InitialStack.CopyDown` | mini-loader/src/main.rs:222 | The overlapping copy moves every word one place down |
| `InitialStack.RewriteStack` | mini-loader/src/main.rs:131-223 | The in-place rewrite drops the first argument and leaves the strings alone, for every argc; it panics exactly when argc is one or the load does |
| `InitialStack.DropFirst` | mini-loader/src/main.rs:221-223 | The overlapping copy and the store of argc leave a laid-out stack without its first argument |
| `InitialStack.StartProgram` | mini-loader/src/main.rs:193-223 | The program then reads one argument less, without the first, the same environment, and the same tags, entry by entry: AT_PHDR (3), AT_PHNUM (5), AT_PHENT (4), AT_ENTRY (9), AT_EXECFN (31) and AT_BASE (7) with the loaded program's values, all others unchanged |

## Left out

- Page protection: `map_prot`, what protection forbids, and RELRO beyond the success or failure of its call.
- System and libc calls, file descriptors and file reading beyond their effect: a mapping is its effect on memory, `read` is a slice of the file's bytes.
- Async loading (`load_async_impl`, `mmap_segment_async`), which repeats the synchronous path.
- Hooks, and `deal_unknown` handlers that touch memory: a handler is the predicate "takes this entry".
- Other architectures, the assembly trampolines and register saving.
- `ElfDynamic::new`, `UserData`, error texts: the parsed dynamic data is an input.
- String tables: a symbol's name is the byte string found there.
- Loader.AddressSpace.LoadImpl: assumes well-formed headers (`WellFormed`: congruent offsets, p_filesz at most p_memsz, ends that do not wrap) and, for the allocator, a block that is really there; without them the code's own sizes wrap or its stores fault. Memory after a failed load is described call by call only.
- Loader.AddressSpace.Mmap: without MAP_FIXED the kernel's answer is the parameter `place`, also when an address hint is given; whether the kernel turns a request down depends on the request alone.
- SegmentImages.LowestExact: ranges over the files with the same 64-byte ELF header and the same program headers.
- VersionTables.NewVersion: memory read through the links is total, so a link that leaves mapped memory is not seen as a fault.
- Symbols.Lookup: is proved for well-formed tables; what a malformed table makes the raw pointers read is not modelled.
- VersionSections.NewVersionOfSections: covers contiguous sections (each record followed by the next, auxiliaries right behind their record), with distinct indices; `VersionTables.NewVersion` covers any links.
- LoadedObjects.LoadOrdinary: states the ordinary case; `LoadsExactly` has the exact condition.
- Symbols.LookupVersioned: assumes that every hashed symbol has a defined version and that versions are stored with their ELF hashes; `SectionsMakeReady` says when the sections see to that.
- RelocationResults.EagerResult: assumes that different entries store to different addresses and none copies from an address stored to, a handler that takes no entry, and that DT_RELACOUNT counts relative entries only, which the code checks for the first one alone.
- RelocationResults.EagerOrder: makes the same assumption about addresses, and assumes relative entries only in the relative list.
- RelocationResults.ScopeMonotonicity: assumes a handler that takes no entry.
- Relocation.SearchScope: the relocation loops use the scope search as a function; this method ties it to the hash tables.
- LazyBinding.LazyObjectEndsEager: assumes scopes that stay fixed during the run, libraries that stay alive (an upgrade of a dead one panics), disjoint slots, a handler that takes no entry, and fixups that do not fail.
- LazyBinding.DlFixup: an index outside the PLT table, which the code reads through a raw pointer, counts as a panic.
- InitialStack.RewriteStack: mini-loader's self-relocation, its heap, its first scan of the auxiliary vector and the values of the new entries are not modelled; a build with overflow checks panics where the count wraps.
- Lifecycle.Component.Relocate: a fault during relocation ends the process, and nothing more is said of the component.
