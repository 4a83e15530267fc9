# A verified model of the SPIR-V LLVM Translator's module core

This project models in Dafny the part of the SPIR-V LLVM Translator that
keeps an in-memory SPIR-V module. It also models the small pure layers
around that part. It proves what those parts promise.

- **The module** (`SpirvModule.Module`, spirv_module.dfy) is a class over
  the fields of `SPIRVModuleImpl`:
  - the next id, the id table and the forward-declared pointers;
  - the section vectors the layout fills, and the capability and
    extension sets;
  - the plain and conditional entry points and the named ids;
  - the interning tables, the SPIR-V version and its allowed maximum, and
    the validity flag.

  Its methods are the module's operations: the dual-mode id allocator,
  `addEntry` with forward placeholders, interning of types, literals and
  strings, capabilities, entry points and their specialization, erasure,
  the splitting of long composites, and version gating. Entities are ids
  with an opcode and a list of operand ids.
- **The topological sort** (`TopoSort`, topo_sort.dfy) is the three-colour
  depth-first search that orders types, constants and variables before the
  module is written.
  - It runs over an abstract graph from ids to operand ids and an opcode
    class per id.
  - Its search state is a value that the visit methods thread through.
  - It breaks a cycle through a pointer type with a forward declaration.
  - It files each entry into one of four buckets: its kind's bucket, or a
    later one when an operand sits in a later bucket (see "## Findings").
- **The binary format** (`BinaryFormat`, binary_format.dfy) covers:
  - the five-word header and its checks when read;
  - the framing of instructions (word count in the high half of word 0,
    opcode in the low half);
  - the reader's loop.

  It follows sections 2.3 and 3.1 of the Khronos SPIR-V specification.
- **Opcode classes** (`OpCodes`, opcodes.dfy): the range predicates of
  `SPIRVOpCode.h` and the containments between them.
- **Debug-information helpers** (`DebugInfo`, debug_info.dfy):
  - file name splitting, the checksum reader and the producer lookup;
  - the array element total and the vector size;
  - the member access flag.
- **Command-line option handling** (`Cli`, cli.dfy):
  - default output names;
  - the `--spirv-ext` list;
  - the integer values of `--spec-const`;
  - the choice of action from the mode flags.

Shared helpers live in wrappers.dfy (`Option`, `Result`), numbers.dfy
(fixed-width ranges, powers of two), strings.dfy (find, find-last-of and
split on character sequences) and sequences.dfy (filter, flatten,
chunks, duplicate-freedom).

Ids are unbounded naturals. The reserved id `0xFFFF_FFFF` and id 0 ask
the allocator for a fresh id.

## Model

| member | source | states |
|---|---|---|
| SpirvModule.Module.constructor | lib/SPIRV/libSPIRV/SPIRVModule.cpp:82-97 | A fresh module holds nothing: next id 1, SPIR-V 1.0, this translator as generator, default schema, capabilities and extensions added automatically, valid, with the Kernel capability of the OpenCL memory model and what it implies declared. The module invariant `Valid` holds. |
| SpirvModule.Module.GetId | lib/SPIRV/libSPIRV/SPIRVModule.cpp:974-981 | An invalid request returns the old next id and advances it by the increment. A valid request returns that id and sets the next id to max(id, next) + increment. The next id never decreases and ends above the returned id; `Valid` is kept, and an invalid request returns an id not in use. |
| SpirvModule.Module.GetEntry | lib/SPIRV/libSPIRV/SPIRVModule.cpp:983-995 | Definition: the id table first, then the forward-declared pointers, else None. What it means for callers is stated by `Exist` (true ids are exactly those `GetEntry` finds in the id table) and by `AddEntry`'s ensures (`GetEntry` finds an added entity under its id and an added forward pointer under its pointer id). |
| SpirvModule.Module.Exist | lib/SPIRV/libSPIRV/SPIRVModule.cpp:960-972 | True only for ids of the id table, whose entry `GetEntry` then returns; an id `GetEntry` finds that does not exist is a forward-declared pointer. |
| SpirvModule.Module.MapEntry | lib/SPIRV/libSPIRV/SPIRVModule.cpp:909-935 | An entry with an id is mapped under it, replacing an `OpForward` placeholder. An id-less forward pointer is recorded under its pointer id. Nothing else in the id table changes. |
| SpirvModule.Module.AddEntry | lib/SPIRV/libSPIRV/SPIRVModule.cpp:909-958 | The id bookkeeping, then the layout into its section vector, then the entry's required capabilities and extension. `getEntry` then finds the entry, and, as `add` does, the same entry is returned. |
| SpirvModule.Module.AddRequirements | lib/SPIRV/libSPIRV/SPIRVModule.cpp:936-957 | Declares the entry's capabilities when they are added automatically, and its extension when extensions are; nothing else changes. |
| SpirvModule.LayoutPlacesOnce | lib/SPIRV/libSPIRV/SPIRVModule.cpp:850-907 | The layout appends an entry to at most one section vector, and to exactly one for the opcodes it places; types go to the type vector and constants to the constant vector. |
| SpirvModule.SectionOf | lib/SPIRV/libSPIRV/SPIRVModule.cpp:850-907 | The section vector an opcode is laid out into: strings, module-scope variables (none with a parent), asm targets, alias declarations, types and constants, or none. Characterized by `LayoutPlacesOnce`. |
| SpirvModule.Layout | lib/SPIRV/libSPIRV/SPIRVModule.cpp:850-907 | `layoutEntry`: a member name joins the member name vector and an entity joins the vector of `SectionOf`; other instructions leave the vectors alone. Characterized by `LayoutPlacesOnce`. |
| SpirvModule.Module.AddExtension | lib/SPIRV/libSPIRV/SPIRVModule.cpp:764-784 | A disallowed extension makes the module invalid and adds nothing; an allowed one is inserted with the extension it extends. |
| SpirvModule.ExtensionEffect | lib/SPIRV/libSPIRV/SPIRVModule.cpp:764-784 | Every extension brings itself. The 16-bit float atomic-add extension also brings the 32/64-bit one; any other extension brings only itself, and no extension brings anything else. |
| SpirvModule.Module.AddCapability | lib/SPIRV/libSPIRV/SPIRVModule.cpp:786-812 | Declares the capability and, first, everything it implies, with their required extensions; adding a present capability changes nothing. |
| SpirvModule.Module.GrownByPresentCapabilities | lib/SPIRV/libSPIRV/SPIRVModule.cpp:786-803 | Capability idempotence: declaring capabilities that are all present already leaves capabilities, extensions and validity unchanged. |
| SpirvModule.Module.GrownTrans | lib/SPIRV/libSPIRV/SPIRVModule.cpp:786-812 | Two rounds of declarations are one round that declares both sets. |
| SpirvModule.ClosureIsClosed | lib/SPIRV/libSPIRV/SPIRVModule.cpp:786-803 | Every capability implied by a declared one is declared too. |
| SpirvModule.Closure | lib/SPIRV/libSPIRV/SPIRVModule.cpp:786-803 | A capability with everything it implies, transitively; `ClosureIsClosed` shows it closed under implication. |
| SpirvModule.ClosureAll | lib/SPIRV/libSPIRV/SPIRVModule.cpp:786-803 | The union of the closures of a list of capabilities, as `addCapabilities` declares them. |
| SpirvModule.Module.AddCapabilities | lib/SPIRV/libSPIRV/SPIRVModule.h:371-375 | Every capability of the list is declared, with everything it implies. |
| SpirvModule.Module.AddConditionalCapability | lib/SPIRV/libSPIRV/SPIRVModule.cpp:814-831 | The (condition, capability) pair is recorded once; a pair already present changes nothing. |
| SpirvModule.Module.AddConditionalCapabilities | lib/SPIRV/libSPIRV/SPIRVModule.h:377-380 | The pair (condition, c) is recorded for each capability c of the list. |
| SpirvModule.Module.EraseConditionalCapability | lib/SPIRV/libSPIRV/SPIRVModule.cpp:833-836 | Exactly that pair is removed. |
| SpirvModule.Module.EraseCapability | lib/SPIRV/libSPIRV/SPIRVModule.cpp:253-255 | Exactly that capability is removed. |
| SpirvModule.Module.SetInvalid | lib/SPIRV/libSPIRV/SPIRVModule.h:142 | The module becomes invalid. |
| SpirvModule.Module.IsModuleValid | lib/SPIRV/libSPIRV/SPIRVModule.h:143 | Definition: the validity flag. The methods that change it (`SetInvalid`, `SetSPIRVVersion`, `AddExtension`, the methods that declare capabilities, `ParseSPIRV`) state in their ensures when it becomes false. |
| SpirvModule.Module.IsAllowedToUseVersion | lib/SPIRV/libSPIRV/SPIRVModule.h:543-545 | Definition: the version is at most the allowed maximum. `GetMaximumAllowedSPIRVVersion` states that the maximum is the greatest accepted version, and `SetSPIRVVersion` that a refused version invalidates the module. |
| SpirvModule.Module.GetMaximumAllowedSPIRVVersion | lib/SPIRV/libSPIRV/SPIRVModule.h:552-554 | The largest version `IsAllowedToUseVersion` accepts. |
| SpirvModule.Module.SetSPIRVVersion | lib/SPIRV/libSPIRV/SPIRVModule.cpp:211-223 | An allowed version is taken; a version above the maximum leaves the version unchanged and makes the module invalid. A version within the maximum stays within it. |
| SpirvModule.Module.SetMinSPIRVVersion | lib/SPIRV/libSPIRV/SPIRVModule.h:206-208 | The version becomes max(v, current) when allowed, else it is unchanged and the module becomes invalid; it never decreases. |
| SpirvModule.Module.SetMaxSPIRVVersion | lib/SPIRV/libSPIRV/SPIRVModule.h:210-214 | Given v at least the current version, the maximum becomes min(v, maximum); it never increases. |
| SpirvModule.Module.AddIntegerType | lib/SPIRV/libSPIRV/SPIRVModule.cpp:1095-1102 | One type per bit width: a repeated width returns the same id and changes nothing; a new width is added under the next id and interned. |
| SpirvModule.Module.AddFloatType | lib/SPIRV/libSPIRV/SPIRVModule.cpp:1104-1113 | One type per (width, encoding), with the same repeat-and-miss behaviour. |
| SpirvModule.Module.AddPointerType | lib/SPIRV/libSPIRV/SPIRVModule.cpp:1115-1137 | One typed pointer per (storage class, element type) and one untyped pointer per storage class, with the same repeat-and-miss behaviour. |
| SpirvModule.Module.AddBoolType | lib/SPIRV/libSPIRV/SPIRVModule.cpp:1086-1093 | The bool type is created once; later calls return it and change nothing. |
| SpirvModule.Module.AddVoidType | lib/SPIRV/libSPIRV/SPIRVModule.cpp:1072-1079 | The void type is created once; later calls return it and change nothing. |
| SpirvModule.Module.GetLiteralAsConstant | lib/SPIRV/libSPIRV/SPIRVModule.cpp:838-848 | One 32-bit integer constant per literal: a repeat returns the same id and changes nothing; a miss creates the 32-bit integer type if needed, then the constant. |
| SpirvModule.Module.AddLiteralAndType | lib/SPIRV/libSPIRV/SPIRVModule.cpp:838-848 | On a double miss the 32-bit integer type and then the constant are added, both interned. |
| SpirvModule.Module.AddLiteral | lib/SPIRV/libSPIRV/SPIRVModule.cpp:838-848 | The constant of the literal is added under the next id, typed by the interned 32-bit integer type, and interned. |
| SpirvModule.Module.GetString | lib/SPIRV/libSPIRV/SPIRVModule.cpp:2361-2368 | One string instruction per string, with the same repeat-and-miss behaviour. |
| SpirvModule.StringOperands | lib/SPIRV/libSPIRV/SPIRVModule.cpp:2361-2368 | Definition: one operand word per character, in order. `StringOperandsInjective` states that distinct strings get distinct operands. |
| SpirvModule.StringOperandsInjective | lib/SPIRV/libSPIRV/SPIRVModule.cpp:2361-2368 | Equal operands come from equal strings, so the string table's key determines the entry. |
| SpirvModule.InternIntType | lib/SPIRV/libSPIRV/SPIRVModule.cpp:1095-1102 | Interning a new integer type keeps every interning table pointing at matching entries of the id table. |
| SpirvModule.InternFloatType | lib/SPIRV/libSPIRV/SPIRVModule.cpp:1104-1113 | The same for a float type. |
| SpirvModule.InternPointerType | lib/SPIRV/libSPIRV/SPIRVModule.cpp:1115-1128 | The same for a typed pointer type. |
| SpirvModule.InternUntypedPointerType | lib/SPIRV/libSPIRV/SPIRVModule.cpp:1115-1137 | The same for an untyped pointer type. |
| SpirvModule.InternLiteral | lib/SPIRV/libSPIRV/SPIRVModule.cpp:838-848 | The same for a literal constant. |
| SpirvModule.InternString | lib/SPIRV/libSPIRV/SPIRVModule.cpp:2361-2368 | The same for a string. |
| SpirvModule.InternBoolAndVoidTypes | lib/SPIRV/libSPIRV/SPIRVModule.cpp:1072-1093 | The same for the bool and void types. |
| SpirvModule.InternedLookup | lib/SPIRV/libSPIRV/SPIRVModule.cpp:1072-1137 | An interned key is found again, for every table: its id names an entry of the id table that is the integer, float, typed pointer or untyped pointer type of that key, the `OpConstant` holding that literal, or the string; the cached bool and void types are the bool and void type entries. |
| SpirvModule.Module.Valid | lib/SPIRV/libSPIRV/SPIRVModule.cpp:974-981 | The module invariant: every id in use lies below the next id, and every interning table names entries of the id table that match their keys. |
| SpirvModule.EntryMapped | lib/SPIRV/libSPIRV/SPIRVModule.cpp:909-935 | Mapping an entity under a new id, or over a placeholder, keeps every interning table pointing at matching entries. |
| SpirvModule.PlaceholderNotInterned | lib/SPIRV/libSPIRV/SPIRVModule.cpp:1343-1349 | No interning table names a forward placeholder. |
| SpirvModule.InternedByAway | lib/SPIRV/libSPIRV/SPIRVModule.cpp:1382-1405 | An id no interning table names may be remapped or dropped without breaking the interning tables. |
| SpirvModule.RenameInterned | lib/SPIRV/libSPIRV/SPIRVModule.cpp:1351-1370 | Every interning table names `to` where it named `from`, and keeps every other id and every key. |
| SpirvModule.InternedByMoved | lib/SPIRV/libSPIRV/SPIRVModule.cpp:1351-1370 | Moving an entity from its id to the placeholder's id, with the interning tables renamed alike, keeps the tables pointing at matching entries. |
| SpirvModule.Module.AddForward | lib/SPIRV/libSPIRV/SPIRVModule.cpp:1343-1345 | A placeholder is mapped under the next id. |
| SpirvModule.Module.AddForwardWithId | lib/SPIRV/libSPIRV/SPIRVModule.cpp:1347-1349 | A placeholder is mapped under the caller's id, which must be unused or hold a placeholder; nothing is laid out. `Valid` is kept when the id is below the next id. |
| SpirvModule.Module.ReplaceForward | lib/SPIRV/libSPIRV/SPIRVModule.cpp:1351-1370 | The entity takes the placeholder's id. If its own id differs, that id is unmapped and its decorations, section slots and interning-table entries move to the placeholder's id. `Valid` is kept. |
| SpirvModule.Retarget | lib/SPIRV/libSPIRV/SPIRVModule.cpp:1351-1370 | Decorations on `from` now target `to`; the others are unchanged, in order. |
| SpirvModule.Rename | lib/SPIRV/libSPIRV/SPIRVModule.cpp:1351-1370 | `from` no longer occurs after renaming it to another id; `to` occurs exactly when `to` or `from` occurred; every other id occurs exactly as before. `RenameUndone` states that renaming back undoes it. |
| SpirvModule.RenameUndone | lib/SPIRV/libSPIRV/SPIRVModule.cpp:1351-1370 | Renaming to an id not in use and back gives the original ids. |
| SpirvModule.Module.AddEntryPoint | lib/SPIRV/libSPIRV/SPIRVModule.cpp:1292-1302 | The entry point is appended and its target recorded for its execution model. The model's capabilities are declared. |
| SpirvModule.Module.RecordEntryPoint | lib/SPIRV/libSPIRV/SPIRVModule.cpp:1292-1302 | The entry point is appended and recorded under its model; it is then reported by `IsEntryPoint`, and no other model's answer changes. |
| SpirvModule.InsertTarget | lib/SPIRV/libSPIRV/SPIRVModule.cpp:1292-1302 | Definition: the target joins the model's id set. `InsertTargetSetLike` states that recording is idempotent and order-independent, and `InsertTargetsRecords` states what a list of recordings holds. |
| SpirvModule.InsertTargetSetLike | lib/SPIRV/libSPIRV/SPIRVModule.cpp:1292-1302 | Recording a target twice is recording it once, and two recordings commute. |
| SpirvModule.InsertTargetsRecords | lib/SPIRV/libSPIRV/SPIRVModule.cpp:1315-1341 | Recording a list of entry points keeps every recorded id and adds exactly their targets, each under its own model. |
| SpirvModule.Module.AddEntryPoints | lib/SPIRV/libSPIRV/SPIRVModule.cpp:1331-1338 | Each entry point of the list goes through `addEntryPoint`, in order. |
| SpirvModule.Module.AddConditionalEntryPoint | lib/SPIRV/libSPIRV/SPIRVModule.cpp:1304-1313 | The conditional entry point is appended and its target recorded for its model; no capability is declared. |
| SpirvModule.Module.RecordConditionalEntryPoint | lib/SPIRV/libSPIRV/SPIRVModule.cpp:1304-1313 | Appended and recorded under its model; reported by `IsEntryPoint` while the model has no plain entry point, and otherwise that answer is unchanged. |
| SpirvModule.Module.IsEntryPoint | lib/SPIRV/libSPIRV/SPIRVModule.cpp:1003-1014 | Definition: the model's plain entry points, or its conditional ones when it has no plain one. `AddEntryPoint` ensures that the added entry point is then reported and that other models' answers do not change. `AddConditionalEntryPoint` ensures that a conditional one is reported while its model has no plain entry point. |
| SpirvModule.Module.SpecializeConditionalEntryPoints | lib/SPIRV/libSPIRV/SPIRVModule.cpp:1315-1341 | Removes exactly the conditional entry points with the condition, keeps the others in order, and erases the removed targets from every conditional set. With `keep`, each removed one becomes a plain entry point, in order. |
| SpirvModule.SpecializeSplits | lib/SPIRV/libSPIRV/SPIRVModule.cpp:1315-1341 | The removed and the kept conditional entry points together are the original ones; none kept has the condition and all removed have it. |
| SpirvModule.EntryPointsOf | lib/SPIRV/libSPIRV/SPIRVModule.cpp:1315-1341 | Definition: the entry points of the conditional ones, position by position. `EntryPointsOfAppend` states that it keeps their order across a concatenation. |
| SpirvModule.EntryPointsOfAppend | lib/SPIRV/libSPIRV/SPIRVModule.cpp:1315-1341 | Taking the entry points distributes over concatenation. |
| SpirvModule.TargetIds | lib/SPIRV/libSPIRV/SPIRVModule.cpp:1315-1341 | The targets of the conditional entry points are exactly the targets of their entry points, as `EntryPointsOf` gives them. `TargetIdsSplit` states that the targets erased and the targets kept together are all of them. |
| SpirvModule.TargetIdsSplit | lib/SPIRV/libSPIRV/SPIRVModule.cpp:1315-1341 | The targets of the conditional entry points with the condition and of those without it together are all their targets. |
| SpirvModule.EraseTargets | lib/SPIRV/libSPIRV/SPIRVModule.cpp:1315-1341 | Every model keeps its key. Every set afterwards is disjoint from the erased ids and contained in the original set, and loses nothing but those ids. |
| Sequences.Filter | lib/SPIRV/libSPIRV/SPIRVModule.cpp:1315-1341 | The elements that pass the test, in order: exactly the elements of the input that pass, and no more of them. |
| SpirvModule.Module.SetName | lib/SPIRV/libSPIRV/SPIRVModule.cpp:1041-1049 | A non-empty name records the id as named and an empty one unrecords it; an entry without id changes nothing. |
| SpirvModule.Module.AddLine | lib/SPIRV/libSPIRV/SPIRVModule.cpp:686-692 | The current line record is kept when it has this file, line and column, and replaced otherwise; the entry gets it. |
| SpirvModule.Module.EraseReferencesOfInst | lib/SPIRV/libSPIRV/SPIRVModule.cpp:225-251 | Returns true exactly for an id that maps to an entity; otherwise nothing changes. On true the id is unnamed, member names and decorations targeting it are dropped, and, for a function only, so are its entry points; other records are kept in order. |
| SpirvModule.Module.EraseValue | lib/SPIRV/libSPIRV/SPIRVModule.cpp:1382-1405 | A type, variable, constant or inline assembly value leaves its section vector and the id table; any other value is refused and nothing changes. `Valid` is kept when no interning table names the id. |
| SpirvModule.ErasableSection | lib/SPIRV/libSPIRV/SPIRVModule.cpp:1382-1405 | The vector a value is erased from is the one the layout put it in, or none for a refused opcode. |
| SpirvModule.ErasableSectionAsWritten | lib/SPIRV/libSPIRV/SPIRVModule.cpp:1382-1405 | As written: the untyped variable opcode is refused. |
| SpirvModule.EraseValueUndoesLayout | lib/SPIRV/libSPIRV/SPIRVModule.cpp:1382-1405 | For a fresh entity that `eraseValue` accepts, erasing after the layout gives back the section vectors as they were. |
| SpirvModule.UntypedVariableNotErased | lib/SPIRV/libSPIRV/SPIRVModule.cpp:860-865 | As written, an untyped variable is laid out in the variable vector but `eraseValue` leaves it there. |
| SpirvModule.Module.AddDecorate | lib/SPIRV/libSPIRV/SPIRVModule.cpp:1280-1290 | The decoration is added, kept in the decoration vector unless a group owns it, and its capabilities are declared. |
| SpirvModule.Module.AddDecorationGroup | lib/SPIRV/libSPIRV/SPIRVModule.cpp:2324-2337 | A group under the next id takes every collected decoration, leaving none collected. |
| SpirvModule.Module.AddMemberName | lib/SPIRV/libSPIRV/SPIRVModule.cpp:2370-2374 | The member name is appended to the member name vector. |
| SpirvModule.Module.AddWithCapabilities | lib/SPIRV/libSPIRV/SPIRVModule.cpp:1280-1290 | `add` of an id-less instruction followed by declaring the listed capabilities: the id table and sections are unchanged and exactly those capabilities are declared. |
| SpirvModule.Module.AddCompositeConstant | lib/SPIRV/libSPIRV/SPIRVModule.cpp:1446-1473 | When a composite does not fit and long composites are allowed, the head holds the first `MaxNumElements` elements and the rest follow in continued instructions. Otherwise one unsplit composite holds all elements. |
| SpirvModule.Module.AddContinuedSlices | lib/SPIRV/libSPIRV/SPIRVModule.cpp:1459-1471 | The remaining elements go out in slices, in order, each added as a continued instruction. |
| SpirvModule.Module.AddContinued | lib/SPIRV/libSPIRV/SPIRVModule.cpp:1475-1478 | One continued instruction is added with its slice. |
| Sequences.Chunks | lib/SPIRV/libSPIRV/SPIRVModule.cpp:1459-1471 | The slices of the remaining elements, at most n each, in order; `CompositeSplit` and `ChunksStep` characterize them. |
| SpirvModule.CompositeSplit | lib/SPIRV/libSPIRV/SPIRVModule.cpp:1446-1473 | Head plus continuations concatenate to the input, in order. The head holds `MaxNumElements` elements and each continuation at most that many, only the last fewer. |
| SpirvModule.ChunksStep | lib/SPIRV/libSPIRV/SPIRVModule.cpp:1459-1471 | One turn of the slicing loop keeps "slices so far plus slices still to cut" equal to all slices. |
| SpirvModule.Module.HeaderWords | lib/SPIRV/libSPIRV/SPIRVModule.cpp:2221-2224 | The header written is the magic number, the version, the generator word, the next id as bound and the schema; the reader reads it back unchanged when the version is allowed. |
| SpirvModule.Module.ParseSPIRV | lib/SPIRV/libSPIRV/SPIRVModule.cpp:2567-2637 | Automatic capabilities and extensions are switched off. A refused header invalidates the module and reads nothing more. Otherwise the header fields are taken over, with the bound as next id, and the instruction loop runs. `Valid` is kept on a refused header and when the id table was empty. |
| BinaryFormat.JoinHalves | lib/SPIRV/libSPIRV/SPIRVModule.cpp:2222 | The high half word fills the upper 16 bits and the low one the lower 16 bits, and both can be read back: the generator id and its version in the header, the word count and the opcode in an instruction's first word. |
| BinaryFormat.HalvesSplit | lib/SPIRV/libSPIRV/SPIRVModule.cpp:2603-2604 | Splitting a word into high and low halves and rejoining them gives the word back. |
| BinaryFormat.EncodeHeader | lib/SPIRV/libSPIRV/SPIRVModule.cpp:2221-2224 | Five words: the magic number first and the bound fourth. |
| BinaryFormat.DecodeHeader | lib/SPIRV/libSPIRV/SPIRVModule.cpp:2576-2606 | Accepts only five or more words with the magic number, a known version no higher than the maximum, and the default schema; an accepted header encodes back to the words read. |
| BinaryFormat.HeaderRoundTrip | lib/SPIRV/libSPIRV/SPIRVModule.cpp:2602-2606 | A written header with an allowed version is read back unchanged, whatever follows it. |
| BinaryFormat.HeaderErrors | lib/SPIRV/libSPIRV/SPIRVModule.cpp:2576-2600 | Each refusal: short input, wrong magic, unknown version, version above the maximum, other schema; the first failing check decides. |
| BinaryFormat.EncodeInstruction | lib/SPIRV/libSPIRV/SPIRVModule.cpp:2614-2615 | The first word carries the word count, which is one more than the number of operands, and the opcode. |
| BinaryFormat.EncodeInstructions | lib/SPIRV/libSPIRV/SPIRVModule.cpp:2609-2634 | At least one word per framed instruction; `FramingRoundTrip` states what the reader makes of them. |
| BinaryFormat.ReadInstructions | lib/SPIRV/libSPIRV/SPIRVModule.cpp:2609-2634 | The reader's loop hands over at most one instruction per word; when it invalidates the module, the last instruction handed over has an opcode the reader does not implement. |
| BinaryFormat.FramingRoundTrip | lib/SPIRV/libSPIRV/SPIRVModule.cpp:2609-2634 | The reader gives back exactly the instructions the writer framed, and the module stays valid. |
| BinaryFormat.ModuleRoundTrip | lib/SPIRV/libSPIRV/SPIRVModule.cpp:2567-2637 | A whole written module is read back as the same header and instructions, and stays valid. |
| BinaryFormat.ReadLoop | lib/SPIRV/libSPIRV/SPIRVModule.cpp:2609-2634 | The loop over the word stream computes what `ReadInstructions` states. |
| TopoSort.TopologicalSort.constructor | lib/SPIRV/libSPIRV/SPIRVModule.cpp:2175-2206 | The output declares each entry after its operands, except forward-declared pointers, without duplicates, and holds exactly the emitted entries; the forward declarations are pointer types. Without a failure every root is emitted or forward declared, and with operands of smaller ids there is no failure and every root is emitted. Roots are visited in ascending id order; with kind-monotone operands the output equals the source's bucketing. |
| TopoSort.SortRoots | lib/SPIRV/libSPIRV/SPIRVModule.cpp:2199-2202 | Visits the roots in ascending id order. On success every root is emitted or forward declared; a cycle not broken by a pointer sets ok to false. |
| TopoSort.Least | lib/SPIRV/libSPIRV/SPIRVModule.cpp:2188-2190 | The least id of a non-empty set, which is how the state map is ordered. |
| TopoSort.Visit | lib/SPIRV/libSPIRV/SPIRVModule.cpp:2123-2172 | Keeps the search invariant and only grows the search. Without a cycle the entry is emitted or forward declared. Under the id-ordering precondition it is emitted. |
| TopoSort.VisitOperands | lib/SPIRV/libSPIRV/SPIRVModule.cpp:2130-2156 | Operands are visited in order until one closes a cycle; the ones before it are emitted or forward declared. |
| TopoSort.Discover | lib/SPIRV/libSPIRV/SPIRVModule.cpp:2129 | Marks the entry Discovered and puts it on the path; the invariant holds. |
| TopoSort.Retreat | lib/SPIRV/libSPIRV/SPIRVModule.cpp:2141-2154 | A cycle through the entry forgets it (Unvisited). A pointer is forward declared, once per pointer id, and nothing else is. |
| TopoSort.Place | lib/SPIRV/libSPIRV/SPIRVModule.cpp:2157-2171 | The entry is appended once, after all its operands, into a bucket no earlier than its kind's or its operands' buckets, and marked Visited. |
| TopoSort.InitialSearch | lib/SPIRV/libSPIRV/SPIRVModule.cpp:2191-2197 | Every root starts Unvisited, nothing emitted; the invariant holds. |
| TopoSort.KindBucket | lib/SPIRV/libSPIRV/SPIRVModule.cpp:2157-2169 | Definition: integer types, then integer-typed constants, then other types, then everything else. It is always one of the four buckets. |
| TopoSort.WrittenOrder | lib/SPIRV/libSPIRV/SPIRVModule.cpp:2209-2212 | The written buckets declare each entry after its operands, without duplicates, and contain exactly the emitted entries. |
| TopoSort.OutputDeclaredBeforeUse | lib/SPIRV/libSPIRV/SPIRVModule.cpp:2209-2212 | Writing the emitted entries bucket by bucket keeps them declared before use and free of duplicates. |
| TopoSort.OutputMembers | lib/SPIRV/libSPIRV/SPIRVModule.cpp:2209-2212 | An entry is in the output exactly when it was emitted into a bucket. |
| TopoSort.OutputMatchesKinds | lib/SPIRV/libSPIRV/SPIRVModule.cpp:2157-2170 | When every entry sits in its kind's bucket, the output is the source's. |
| TopoSort.AsWrittenUsesBeforeDeclaration | lib/SPIRV/libSPIRV/SPIRVModule.cpp:2157-2170 | Bucketing by kind alone writes an integer spec constant before the null pointer constant it converts. |
| TopoSort.KindSlice | lib/SPIRV/libSPIRV/SPIRVModule.cpp:2157-2170 | The emitted entries of one kind bucket, in emission order. |
| TopoSort.AsWrittenOutput | lib/SPIRV/libSPIRV/SPIRVModule.cpp:2157-2170 | As written: the emitted entries written by kind bucket alone (integer types, integer-typed constants, other types, the rest); `AsWrittenUsesBeforeDeclaration` shows it writes a use before its declaration. |
| OpCodes.IsPointerTypeOpCode | lib/SPIRV/libSPIRV/SPIRVModule.cpp:2142-2143 | Typed and untyped pointer types are where a cycle is broken. |
| TopoSort.InsertKeepsOrder | lib/SPIRV/libSPIRV/SPIRVModule.cpp:2157-2170 | Inserting an entry after all its operands keeps a declared-before-use order. |
| OpCodes.IsFPAtomicOpCode | lib/SPIRV/libSPIRV/SPIRVOpCode.h:61-64 | The floating-point atomic add, min and max. |
| OpCodes.IsAtomicOpCode | lib/SPIRV/libSPIRV/SPIRVOpCode.h:65-71 | The atomic range from load to xor, the flag test-and-set and clear, and the floating-point atomics. |
| OpCodes.IsAtomicOpCodeUntypedPtrSupported | lib/SPIRV/libSPIRV/SPIRVOpCode.h:72-77 | The atomic range from load to xor and the floating-point atomics. |
| OpCodes.IsBinaryOpCode | lib/SPIRV/libSPIRV/SPIRVOpCode.h:79-83 | The arithmetic range from integer add to float modulo, the dot product, and the carry, borrow and extended multiplies. |
| OpCodes.IsBinaryPtrOpCode | lib/SPIRV/libSPIRV/SPIRVOpCode.h:85-87 | The pointer comparisons and difference. |
| OpCodes.IsShiftOpCode | lib/SPIRV/libSPIRV/SPIRVOpCode.h:89-92 | The three shifts. |
| OpCodes.IsLogicalOpCode | lib/SPIRV/libSPIRV/SPIRVOpCode.h:94-96 | The logical range from equal to not. |
| OpCodes.IsUnaryPredicateOpCode | lib/SPIRV/libSPIRV/SPIRVOpCode.h:98-100 | The range from any to sign-bit-set. |
| OpCodes.IsBitwiseOpCode | lib/SPIRV/libSPIRV/SPIRVOpCode.h:102-104 | Bitwise or, xor and and. |
| OpCodes.IsBinaryShiftLogicalBitwiseOpCode | lib/SPIRV/libSPIRV/SPIRVOpCode.h:106-110 | The range from the shifts to bitwise and, and the binary opcodes. |
| OpCodes.IsCmpOpCode | lib/SPIRV/libSPIRV/SPIRVOpCode.h:112-116 | The integer and float comparisons, and the range from less-or-greater to logical not-equal. |
| OpCodes.IsCvtOpCode | lib/SPIRV/libSPIRV/SPIRVOpCode.h:118-123 | The conversions from float-to-unsigned to bitcast, the saturating conversions and the cross-workgroup casts. |
| OpCodes.IsCvtToUnsignedOpCode | lib/SPIRV/libSPIRV/SPIRVOpCode.h:125-128 | Float-to-unsigned, unsigned convert and saturating signed-to-unsigned. |
| OpCodes.IsCvtFromUnsignedOpCode | lib/SPIRV/libSPIRV/SPIRVOpCode.h:130-133 | Unsigned-to-float, unsigned convert and saturating unsigned-to-signed. |
| OpCodes.IsSatCvtOpCode | lib/SPIRV/libSPIRV/SPIRVOpCode.h:135-137 | The two saturating conversions. |
| OpCodes.IsOpaqueGenericTypeOpCode | lib/SPIRV/libSPIRV/SPIRVOpCode.h:139-142 | The types from event to queue, and the sampler. |
| OpCodes.IsGenericNegateOpCode | lib/SPIRV/libSPIRV/SPIRVOpCode.h:144-147 | Integer and float negation and bitwise not. |
| OpCodes.IsAccessChainOpCode | lib/SPIRV/libSPIRV/SPIRVOpCode.h:149-151 | The typed access chains. |
| OpCodes.IsUntypedAccessChainOpCode | lib/SPIRV/libSPIRV/SPIRVOpCode.h:153-158 | The four untyped access chains. |
| OpCodes.HasExecScope | lib/SPIRV/libSPIRV/SPIRVOpCode.h:160-166 | The group instructions, the group pipe instructions and the non-uniform rotate. |
| OpCodes.HasGroupOperation | lib/SPIRV/libSPIRV/SPIRVOpCode.h:168-174 | The group arithmetic, the ballot bit count, the non-uniform arithmetic and the group multiply-and-logical extension. |
| OpCodes.IsUniformArithmeticOpCode | lib/SPIRV/libSPIRV/SPIRVOpCode.h:176-180 | The group arithmetic and the group multiply-and-logical extension. |
| OpCodes.IsNonUniformArithmeticOpCode | lib/SPIRV/libSPIRV/SPIRVOpCode.h:182-185 | The non-uniform arithmetic range. |
| OpCodes.IsGroupLogicalOpCode | lib/SPIRV/libSPIRV/SPIRVOpCode.h:187-193 | The six logical group reductions. |
| OpCodes.IsGroupOpCode | lib/SPIRV/libSPIRV/SPIRVOpCode.h:195-199 | The group range from all to signed max, and the group multiply-and-logical extension. |
| OpCodes.IsGroupNonUniformOpCode | lib/SPIRV/libSPIRV/SPIRVOpCode.h:201-205 | The non-uniform range from elect to quad swap, and the non-uniform rotate. |
| OpCodes.IsMediaBlockINTELOpCode | lib/SPIRV/libSPIRV/SPIRVOpCode.h:207-210 | The media block read and write. |
| OpCodes.IsPipeOpCode | lib/SPIRV/libSPIRV/SPIRVOpCode.h:212-216 | The pipe range and the blocking pipe extension. |
| OpCodes.IsSubgroupAvcINTELTypeOpCode | lib/SPIRV/libSPIRV/SPIRVOpCode.h:218-221 | The AVC payload and result types. |
| OpCodes.IsSubgroupAvcINTELInstructionOpCode | lib/SPIRV/libSPIRV/SPIRVOpCode.h:223-227 | The AVC instruction range. |
| OpCodes.IsSubgroupAvcINTELEvaluateOpCode | lib/SPIRV/libSPIRV/SPIRVOpCode.h:229-237 | The three AVC evaluate ranges. |
| OpCodes.IsVCOpCode | lib/SPIRV/libSPIRV/SPIRVOpCode.h:239 | The buffer surface type. |
| OpCodes.IsTypeOpCode | lib/SPIRV/libSPIRV/SPIRVOpCode.h:241-251 | The core type range, pipe storage, the AVC, VME, VC, token, joint matrix, cooperative matrix and task sequence types, and the untyped pointer. |
| OpCodes.IsFnVarSpecConstINTEL | lib/SPIRV/libSPIRV/SPIRVOpCode.h:253-258 | The three function-variant spec constants. |
| OpCodes.IsSpecConstantOpCode | lib/SPIRV/libSPIRV/SPIRVOpCode.h:260-264 | The spec constant range and the function-variant spec constants. |
| OpCodes.IsConstantOpCode | lib/SPIRV/libSPIRV/SPIRVOpCode.h:266-271 | The constant range, undef, pipe storage and function pointer constants, and the spec constants. |
| OpCodes.IsModuleScopeAllowedOpCode | lib/SPIRV/libSPIRV/SPIRVOpCode.h:273-276 | Variables, extended instructions and constants. |
| OpCodes.IsIntelSubgroupOpCode | lib/SPIRV/libSPIRV/SPIRVOpCode.h:278-281 | The Intel subgroup shuffle and block range. |
| OpCodes.IsEventOpCode | lib/SPIRV/libSPIRV/SPIRVOpCode.h:283-285 | The event range from retain to capture-profiling-info. |
| OpCodes.IsSplitBarrierINTELOpCode | lib/SPIRV/libSPIRV/SPIRVOpCode.h:287-290 | The split barrier arrive and wait. |
| OpCodes.SpecConstantIsConstant | lib/SPIRV/libSPIRV/SPIRVOpCode.h:260-271 | Every spec-constant opcode is a constant opcode. |
| OpCodes.ConstantIsModuleScopeAllowed | lib/SPIRV/libSPIRV/SPIRVOpCode.h:273-276 | Constants, `OpVariable` and `OpExtInst` are allowed at module scope. |
| OpCodes.AtomicClassesNested | lib/SPIRV/libSPIRV/SPIRVOpCode.h:61-77 | Float atomics allow untyped pointers, and those are atomics. |
| OpCodes.BinaryShiftBitwiseCovered | lib/SPIRV/libSPIRV/SPIRVOpCode.h:79-110 | Binary, shift and bitwise opcodes are all in the combined class. |
| OpCodes.ConversionClassesNested | lib/SPIRV/libSPIRV/SPIRVOpCode.h:118-137 | Saturating, to-unsigned and from-unsigned conversions are conversions. |
| OpCodes.GroupClassesNested | lib/SPIRV/libSPIRV/SPIRVOpCode.h:168-199 | Uniform arithmetic has a group operation and is a group opcode; non-uniform arithmetic and group logical opcodes have a group operation. |
| OpCodes.TypeClassesNested | lib/SPIRV/libSPIRV/SPIRVOpCode.h:218-251 | AVC and VC types, and the untyped pointer, are type opcodes. |
| OpCodes.TypesAndConstantsDisjoint | lib/SPIRV/libSPIRV/SPIRVOpCode.h:218-271 | No opcode is both a type and a constant. |
| DebugInfo.SplitFileName | lib/SPIRV/SPIRVToLLVMDbgTran.cpp:1803-1812 | With a separator: the base name follows the last '/' or '\\' and holds none, the path precedes it, and path, separator and base name rejoin to the input. Without one: the whole name in ".". |
| DebugInfo.SplitJoinedName | lib/SPIRV/SPIRVToLLVMDbgTran.cpp:1803-1808 | Joining a directory and a separator-free base name with either separator, then splitting, gives both back. |
| DebugInfo.ChecksumKindOf | lib/SPIRV/SPIRVToLLVMDbgTran.cpp:1835 | The kind whose name is exactly the text, and none for any other text. |
| DebugInfo.HexPrefixLength | lib/SPIRV/SPIRVToLLVMDbgTran.cpp:1836 | The length of the longest run of hex digits at the start. |
| DebugInfo.TrimColons | lib/SPIRV/SPIRVToLLVMDbgTran.cpp:1834 | The text without its leading colons, and nothing more removed. |
| DebugInfo.ParseChecksum | lib/SPIRV/SPIRVToLLVMDbgTran.cpp:1824-1841 | No marker gives no checksum, and a checksum read is all hex digits. |
| DebugInfo.ChecksumAt | lib/SPIRV/SPIRVToLLVMDbgTran.cpp:1824-1841 | The checksum read after a marker is all hex digits; `ParseAfterMarker` gives its kind and text. |
| DebugInfo.ChecksumRoundTrip | lib/SPIRV/SPIRVToLLVMDbgTran.cpp:1824-1841 | A checksum written with its marker, and followed by a non-hex character, is read back with its kind. |
| DebugInfo.ParseAfterMarker | lib/SPIRV/SPIRVToLLVMDbgTran.cpp:1829-1838 | After the first marker, the name up to the first colon selects the kind and the hex run after the colons is the checksum. |
| DebugInfo.UnknownKindRejected | lib/SPIRV/SPIRVToLLVMDbgTran.cpp:1835-1838 | An unknown kind name gives no checksum. |
| DebugInfo.ColonAfterMarker | lib/SPIRV/SPIRVToLLVMDbgTran.cpp:1831-1833 | The colon found from the marker lies after the marker's header. |
| DebugInfo.HexPrefixOfJoin | lib/SPIRV/SPIRVToLLVMDbgTran.cpp:1836-1837 | A hex run followed by a non-hex character is the checksum taken. |
| DebugInfo.FindModuleProducer | lib/SPIRV/SPIRVToLLVMDbgTran.cpp:1814-1822 | The first processed string containing the producer marker, without the marker's length of leading characters; "spirv" when none contains it. |
| DebugInfo.TotalCount | lib/SPIRV/SPIRVToLLVMDbgTran.cpp:361-403 | The product of the subscript factors modulo 2^64; a count that is not positive contributes 0. |
| DebugInfo.ElementCountZero | lib/SPIRV/SPIRVToLLVMDbgTran.cpp:401-403 | The total is 0 exactly when some constant count is 0 or negative. |
| DebugInfo.Factor | lib/SPIRV/SPIRVToLLVMDbgTran.cpp:361-403 | A constant count contributes itself when positive as a signed value and 0 otherwise; other subscripts contribute 1. |
| DebugInfo.ElementCount | lib/SPIRV/SPIRVToLLVMDbgTran.cpp:361-403 | The exact product of the factors; `TotalCount` is it modulo 2^64. |
| DebugInfo.BitCeil | lib/SPIRV/SPIRVToLLVMDbgTran.cpp:496 | The smallest power of two not below the count. |
| DebugInfo.VectorSizeBounds | lib/SPIRV/SPIRVToLLVMDbgTran.cpp:490-496 | Without wrap-around, a vector takes at least its components' room and at most twice that; three components take the room of four. |
| DebugInfo.BitCeilBelowDouble | lib/SPIRV/SPIRVToLLVMDbgTran.cpp:496 | The rounded count is at most twice the count. |
| DebugInfo.VectorSize | lib/SPIRV/SPIRVToLLVMDbgTran.cpp:490-496 | The component size times the component count rounded up to a power of two, modulo 2^64; `VectorSizeBounds` bounds it. |
| DebugInfo.AccessField | lib/SPIRV/SPIRVToLLVMDbgTran.cpp:698-704 | Each access value is encoded within the access field. |
| DebugInfo.AccessDecodesField | lib/SPIRV/SPIRVToLLVMDbgTran.cpp:698-704 | The chosen access depends on the access field alone and every access is read from its own encoding, whatever the other flags are. |
| DebugInfo.AccessOf | lib/SPIRV/SPIRVToLLVMDbgTran.cpp:698-704 | Public when the access field is exactly public, else protected or private by their bits, else none; `AccessDecodesField` and `AccessField` characterize it. |
| Cli.RemoveExt | tools/llvm-spirv/llvm-spirv.cpp:342-347 | Without '.', the name unchanged. Otherwise the prefix before the last '.', with no '.' after it. |
| Cli.RemoveExtOfJoin | tools/llvm-spirv/llvm-spirv.cpp:342-347 | stem + "." + ext loses exactly ".ext" when ext has no '.'. |
| Cli.RemoveExtInDirectory | tools/llvm-spirv/llvm-spirv.cpp:342-347 | A '.' in a directory counts: below such a directory, an extension-less file name is cut at the directory's '.'. |
| Cli.DefaultOutput | tools/llvm-spirv/llvm-spirv.cpp:385-392 | Definition: "-" stays "-", and any other input gives its stem plus the extension. `OutputKeepsStem` states that the stem can be recovered from the output. |
| Cli.OutputName | tools/llvm-spirv/llvm-spirv.cpp:385-392 | Definition: a given output name wins, otherwise the default output. `ConversionOutputAgrees` and `ActionOutputKeepsStem` use it. |
| Cli.OutputKeepsStem | tools/llvm-spirv/llvm-spirv.cpp:385-392 | Removing the extension of the default output gives the input's stem again, for .spv, .spt and .bc. |
| Cli.ConvertOutput | tools/llvm-spirv/llvm-spirv.cpp:498-512 | Definition: refused exactly when -to-binary and -to-text are both given or both missing, otherwise .spv for binary and .spt for text. `ConversionOutputAgrees` states that a dispatched conversion is never refused. |
| Cli.ConversionOutputAgrees | tools/llvm-spirv/llvm-spirv.cpp:498-512 | When `main` dispatches to a conversion, `convertSPIRV`'s flag check passes, and the output it names is the one `ActionOutput` gives. |
| Cli.ActionOutput | tools/llvm-spirv/llvm-spirv.cpp:548-553 | Definition, case by case: no output exactly for a rejected or report action, otherwise the default output with the action's extension. `ActionOutputKeepsStem` and `ConversionOutputAgrees` state what it means. |
| Cli.ActionOutputKeepsStem | tools/llvm-spirv/llvm-spirv.cpp:385-392 | For a named input, a translating or converting action's output has the input's stem, and the regularized output's stem is the stem plus ".regularized". |
| Cli.InitialStatus | tools/llvm-spirv/llvm-spirv.cpp:591-595 | Every known extension is allowed in reverse mode and unset otherwise, and no other name is present. |
| Cli.Override | tools/llvm-spirv/llvm-spirv.cpp:617-621 | Definition: the given names take the value and all other entries are kept. `OverrideTwice` states that a later setting replaces an earlier one, and `SetAll` that the source's loop computes it. |
| Cli.OverrideTwice | tools/llvm-spirv/llvm-spirv.cpp:617-621 | Setting the same names twice leaves the second value. |
| Cli.Apply | tools/llvm-spirv/llvm-spirv.cpp:617-632 | One accepted entry: "all" sets every known extension to its sign, a name sets only that extension. |
| Cli.ApplyAll | tools/llvm-spirv/llvm-spirv.cpp:617-632 | The entries applied in order; `LastEntryWins` gives the outcome per extension. |
| Cli.SetAll | tools/llvm-spirv/llvm-spirv.cpp:617-621 | The loop over the known extensions computes `Override`. |
| Cli.ParseExtOption | tools/llvm-spirv/llvm-spirv.cpp:573-636 | Returns 0 exactly when every entry is signed, non-empty, and names "all" or a known extension; the entries are then applied left to right. Otherwise returns -1 at the first bad entry, with the entries before it applied. |
| Cli.LastEntryWins | tools/llvm-spirv/llvm-spirv.cpp:617-632 | A known extension ends with the sign of the last entry naming it or "all", or with its initial status if there is none. |
| Cli.ParseDecimal | tools/llvm-spirv/llvm-spirv.cpp:659 | A number exactly for a non-empty string of decimal digits. |
| Cli.DecimalText | tools/llvm-spirv/llvm-spirv.cpp:659 | A number written in decimal is non-empty and all digits. |
| Cli.DecimalRoundTrip | tools/llvm-spirv/llvm-spirv.cpp:659 | Reading a number written in decimal gives it back. |
| Cli.ParseU32 | tools/llvm-spirv/llvm-spirv.cpp:658-664 | An id is a decimal below 2^32: a value exactly when the text is a decimal below 2^32, and then that decimal's value. |
| Cli.WidthOf | tools/llvm-spirv/llvm-spirv.cpp:673-674 | The width is the parsed 32-bit value, and it stays 0 when its text does not parse. |
| Cli.FindInfo | tools/llvm-spirv/llvm-spirv.cpp:665-667 | The first constant of the module with the id, or none when no constant has it. |
| Cli.IntegerSpecConst | tools/llvm-spirv/llvm-spirv.cpp:672-700 | Accepted only when the width W is a power of two, at most 64, with the constant's byte size, and the value text is decimal; the accepted value is that decimal and lies below 2^W and below 2^64. |
| Cli.IntegerBadWidthRejected | tools/llvm-spirv/llvm-spirv.cpp:673-681 | A width text that is not a 32-bit decimal, or one that is not a power of two or above 64, is refused as a bad type. |
| Cli.IntegerSizeMismatchRejected | tools/llvm-spirv/llvm-spirv.cpp:682-689 | A power-of-two width up to 64 whose byte size differs from the constant's is refused as a size mismatch. |
| Cli.IntegerNotDecimalRejected | tools/llvm-spirv/llvm-spirv.cpp:690-698 | With a good width and size, a value text that is not decimal is refused as a bad value. |
| Cli.IntegerAccepted | tools/llvm-spirv/llvm-spirv.cpp:672-700 | Every value below 2^W, written with a power-of-two W ≤ 64 and the matching byte size, is accepted as it is. |
| Cli.IntegerTooWideRejected | tools/llvm-spirv/llvm-spirv.cpp:690-698 | A value with a bit at or above W is refused. |
| Cli.IntegerValueCheck | tools/llvm-spirv/llvm-spirv.cpp:672-700 | Once the width is a power of two ≤ 64 with the constant's byte size, a decimal value is accepted exactly when it is below 2^W, and refused as a bad value otherwise. |
| Cli.PowersUpTo64 | tools/llvm-spirv/llvm-spirv.cpp:675 | The power-of-two widths up to 64 are 1, 2, 4, 8, 16, 32 and 64. |
| Cli.ParseSpecConst | tools/llvm-spirv/llvm-spirv.cpp:648-745 | Fewer than three ':'-fields is a format error; an id that is not a 32-bit decimal is a bad id; an id no constant has is an unknown id; an `i` type gives exactly `IntegerSpecConst` on the width text, the value text and the constant's size; an `f` type is accepted exactly for width 16, 32 or 64 and a value that converts, and sets those bits; any other type is a bad type. An accepted option names a constant of the module. |
| Cli.IntegerOptionRoundTrip | tools/llvm-spirv/llvm-spirv.cpp:648-700 | An option `id:iW:value` written in decimal, for a constant of the module with W's byte size and a value below 2^W, is accepted and sets that constant to exactly that value. |
| Cli.ParseSpecConstOpt | tools/llvm-spirv/llvm-spirv.cpp:639-748 | Fails when the module's constants cannot be read or any option is refused. Otherwise every space-separated option sets its constant, in order. |
| Cli.SetSpecConstsStep | tools/llvm-spirv/llvm-spirv.cpp:648-745 | One more accepted option sets its constant on top of the earlier ones. |
| Cli.LaterSpecConstWins | tools/llvm-spirv/llvm-spirv.cpp:648-745 | For duplicate ids the later option wins; a constant no option names keeps its value. |
| Cli.SetSpecConsts | tools/llvm-spirv/llvm-spirv.cpp:648-745 | The accepted options set their constants in order; `SetSpecConstsStep` and `LaterSpecConstWins` characterize it. |
| Cli.Dispatch | tools/llvm-spirv/llvm-spirv.cpp:961-988 | Rejected exactly for -to-text or -to-binary with another mode flag, or -r with -s. Conversion, reverse, regularize, forward and report actions are each characterised by the flags. |
| Strings.Find | lib/SPIRV/SPIRVToLLVMDbgTran.cpp:1829 | The first occurrence at or after the start position, or none when there is none. |
| Strings.FindLastOf | tools/llvm-spirv/llvm-spirv.cpp:343 | The last position holding one of the characters, or none when there is none. |
| Strings.IndexOf | tools/llvm-spirv/llvm-spirv.cpp:649 | The first position of the character, or none exactly when the text does not hold it. |
| Strings.Pieces | tools/llvm-spirv/llvm-spirv.cpp:645-646 | At least one piece; `PiecesJoin` shows they hold no separator and rejoin to the text. |
| Strings.SplitAtMost | tools/llvm-spirv/llvm-spirv.cpp:649 | Between one piece and one more than the cut limit; `SplitAtMostJoin` and `SplitAtMostPieces` characterize them. |
| Strings.PiecesJoin | tools/llvm-spirv/llvm-spirv.cpp:645-646 | The space-separated pieces hold no space and rejoin to the text. |
| Strings.SplitAtMostJoin | tools/llvm-spirv/llvm-spirv.cpp:649 | The pieces cut at no more than two ':' rejoin to the option. |
| Strings.SplitAtMostPieces | tools/llvm-spirv/llvm-spirv.cpp:649 | All pieces but the last hold no ':'. |

## Left out

- Per-entity encoding and decoding (`SPIRVEntry::create`, the entity
  stream operators) is not part of this model. The binary reader hands
  over framed instructions and does not build entities from them.
- The text format reader (`parseSPT`), the stream plumbing and the
  endianness of the header read are left out.
- Ownership and destruction of entities, and shared line objects, are
  left out: they concern memory, not behaviour.
- Floating-point constants are left out.
- `takeAnnotations` is left out: the entity is not shown.
- The function vector and `addFunction` are left out: they are not among
  the modelled operations.
- The debug-information vectors of the layout and `resolveUnknownStructFields`
  are left out.
- SpirvModule.Module.GetId: the wrap-around of the 32-bit next id at
  2^32 is not modelled; ids are unbounded naturals.
- SpirvModule.Module.EraseValue: models the corrected behaviour of the
  `eraseValue` row of "## Findings". It also erases a module-scope
  `OpUntypedVariableKHR`, which the source refuses; the as-written half
  is `ErasableSectionAsWritten`, shown by `UntypedVariableNotErased`.
- SpirvModule.Module.EraseValue: keeps `Valid` only for an id that no
  interning table names. The source erases such an entity and leaves the
  interning table pointing at it.
- SpirvModule.Module.AddForwardWithId: keeps `Valid` only for an id below
  the next id, because `addForward(Id, Ty)` does not move the next id.
- SpirvModule.Module.ParseSPIRV: keeps `Valid` only on a refused header or
  when the id table was empty, because the bound replaces the next id.
- SpirvModule.Module.Valid: does not include agreement between the
  section vectors and the id table. Each method states its new section
  vectors instead.
- TopoSort.Place: models the corrected behaviour of the bucketing row of
  "## Findings". An entry goes into the later of its kind's bucket and its
  operands' buckets; the source uses the kind's bucket alone. They differ
  for an integer spec constant whose operand is a pointer constant. The
  as-written half is `AsWrittenOutput`, shown by
  `AsWrittenUsesBeforeDeclaration`.
- SpirvModule.Module.ParseSPIRV: the per-instruction entity parse is
  abstracted. An opcode outside the `implemented` parameter stands for an
  instruction the reader fails on. The reader also invalidates the module
  on an `OpExtension` whose name is unknown or disallowed
  (SPIRVModule.cpp:2415-2431). That check depends on the operand, not the
  opcode, so the model does not capture it.
- TopoSort.TopologicalSort.constructor: a cycle that no pointer breaks is
  an unreachable state in the source (`llvm_unreachable`). It cannot be
  stated cheaply as a precondition, so the model reports it with `ok`
  false.
- TopoSort.TopologicalSort.constructor: when a pointer has a smaller id
  than the structure it points into, the pointer may end up only forward
  declared. The model promises only "emitted or forward declared" for
  every root, and "emitted" only under an id-ordering precondition.
- TopoSort.Visit: the search state is threaded as a value, not updated in
  place in the class, so aliasing of the state map is not captured.
- The replacement of an `OpTypeForwardPointer` operand by the pointer it
  declares (SPIRVModule.cpp lines 2131-2135) is left out: operands are ids
  of the pointer type itself.
- The module `add` of the forward pointer entity the sort creates is left
  out; the sort records the pointer id in its forward set.
- SpirvModule.Module.AddCapability: the implication table (`ImpliedTable`)
  is required to imply only capabilities with smaller enumerants, so the
  recursion of `addCapability` terminates on a decreasing enumerant. The
  source needs only an acyclic table. The table itself (`getCapability` in
  SPIRVEnum.h) is not part of this model, so a table entry that implies a
  larger enumerant, as the SPIR-V grammar allows, is not covered.
- The capability and extension requirement tables (`getRequiredCapability`,
  `getRequiredExtension`) are parameters of the module.
- The tables of `SPIRV.debug.h` (the flag masks, the producer marker, the
  checksum-kind marker) are not part of this model. Their values are taken
  as constants of `DebugInfo`.
- DebugInfo.ChecksumKindOf: `DIFile::getChecksumKind` is taken as the
  three names CSK_MD5, CSK_SHA1 and CSK_SHA256.
- DebugInfo.ChecksumRoundTrip: requires the text before the marker to have
  no '/' and the checksum to be followed by a non-hex character. This is
  weaker than a round trip for every text.
- DebugInfo.TotalCount: the element type's size in bits (`getDerivedSizeInBits`)
  is an LLVM call and is left out; only the element total is modelled.
  Subscripts that are not constants leave the total alone.
- DebugInfo.VectorSizeBounds: `bit_ceil` is undefined above 2^31 for
  32-bit counts, so `VectorSize` requires a count of at most 2^31.
- The static-member flag of `transTypeMemberOpenCL` is left out. Only the
  access flag is modelled.
- Cli.ParseSpecConst: the `f16`/`f32`/`f64` branch checks the width, but
  converting the value text (hexadecimal stream read or APFloat
  conversion) is a parameter `floatBits`, because it is floating-point
  parsing.
- Cli.ParseSpecConstOpt: reading the module's constants
  (`getSpecConstInfo`) is file I/O. Its outcome is a parameter.
- The command-line tool's file I/O, bitcode reading and writing, module
  verification, the disassembler, the constants report, the module report
  and the option registration are left out.
- The tool's other options (`--spirv-ext-inst`, `--spirv-target-env`,
  function-variant options and the like) are left out.
- The text-format conversion is modelled as compiled in (the
  `_SPIRV_SUPPORT_TEXT_FMT` build flag set).
- The comment at tools/llvm-spirv/llvm-spirv.cpp:585-590 says extensions
  start allowed when converting to or from SPIR-V text. The code sets
  them allowed only with `-r`. The model follows the code.

## Findings

| source | as written | input that shows it | evidently intended | confidence | as-written member | corrected member |
|---|---|---|---|---|---|---|
| lib/SPIRV/libSPIRV/SPIRVModule.cpp:2157-2170 | Entries are bucketed by kind alone: integer types, integer-typed constants, other types, everything else. | `%n = OpConstantNull %ptr` for a pointer type %ptr, and an integer `OpSpecConstantOp ConvertPtrToU %n`: %n goes to the fourth bucket and the spec constant to the second, so the spec constant is written before %n. | Every entry is written after its operands: an entry's bucket is no earlier than its operands' buckets. | medium, not executed | TopoSort.AsWrittenUsesBeforeDeclaration | TopoSort.OutputDeclaredBeforeUse |
| lib/SPIRV/libSPIRV/SPIRVModule.cpp:1382-1405 | `eraseValue` erases variables only with opcode `OpVariable`. | A module-scope `OpUntypedVariableKHR`: the layout (lines 860-865) puts it in the variable vector, and `eraseValue` refuses it and leaves it there. | Every variable the layout places can be erased. | low, not executed | SpirvModule.UntypedVariableNotErased | SpirvModule.EraseValueUndoesLayout |
