# A verified model of gsc-obf

gsc-obf rewrites compiled scripts of a game in place so that they are harder to
decompile, alone or inside a compressed fastfile. This project models its core
in Dafny and proves what the program relies on: that a rewritten script still
runs the same code, that names still link, that the container reads back what
was written, and that every loop ends.

The model follows the program's parts, one or more modules each:

- **The script rewriter** (`GscObfuscator.dfy`): a class over one byte array with
  two tables filed by name, a free list of four-byte slots and a shared junk slot.
  Its methods overwrite the array as the program does. What they compute is told
  on values by `LocalNames`, `Trampolines`, `Jumps`, `DevKill`, `DevTables`,
  `Linking`, `PrivateExports`, `Checksums`, `ChecksumPass` and `HashRewrite`;
  `DevHarvest`, `DevRun`, `WholeRun`, `PrivateRun`, `LocalRun` and `HashRun` put the
  passes together.
- **The fastfile container** (`Fastfile.dfy`, `Compression.dfy`): a writer of
  blocks and a reader that checks the position of each. Compression libraries are
  parameters, with the one hypothesis that decompressing undoes compressing; the
  uncompressed branches are written out and need no hypothesis.
- **Private names** (`PrivateFile.dfy`, `PrivateTexts.dfy`, `HashMini.dfy`):
  base-38 names, length-preserving replacements, renaming of strings in place, and
  the FNV hashes.
- **The scanners underneath** (`ByteBuffer.dfy`, `GscFinder.dfy`, `Bits.dfy`), and
  `Pipeline`, which joins reading, finding, patching and writing.

`dafny verify dfyconfig.toml` checks everything.

## Reading the model

Bytes, 16-, 32- and 64-bit fields are subset types of `int`; truncation,
wrap-around and sign are written out where the program has them. Pointers into
the script are positions in it. Exceptions are `Err`, `None` or a `false` result.
The iteration order of a hash map is any order: the loops take keys one at a time
in an order nothing is known about, and the results hold for all of them. The
random jump opcode is any member of the opcode table, the random identifier of a
private file any number, and the checksum any fold over bytes.

Some results say where the program does not do what one would expect:

- `ByteBuffer::Find` compares at the cursor plus the position it reports, so it is
  a search only with the cursor at the start (`Search.FindIsExactAtStart`). Its one
  caller, the hash rewriting, has the cursor there.
- The rewriting of a private hash never ends when the replacement is the hash
  itself and occurs (`HashRewrite.LoopEndsIffReplacementDiffers`). A later entry
  whose replacement is an earlier hash restores it (`HashRewrite.LoadableScriptRestored`),
  and one shared byte can be enough, since a replacement can join with the bytes around
  it into the hash (`HashRewrite.OverlapRestores`; `HashRewrite.TurnBringsBackIff` and
  `HashRewrite.PairGoneIff` say when).
- Private numbers can capture a name that is kept, since nothing checks the
  namespace for it; `Linking.LinksPreservedInAnyOrder` says exactly when.
- A script's own name is looked up as it is while includes are looked up with
  backslashes, so a name in slash form can lose its includes
  (`PrivateNames.IncludeStillNames`).
- Block positions are truncated to 32 bits when written and not when read
  (`FastfileFormat.RoundTrip`), and an uncompressed block of two gigabytes or more
  reads as an error (`Compression.NoneUndoesIff`).
- `HashT7` is plain FNV-1a (section 2 of draft-eastlake-fnv) for ASCII text and not for
  text with one byte of 0x80 or more (`HashMini.HashT7IsFnvIffAscii`), because `char` is
  signed on the compiler the program is built with.
- For exports no two of which start in the same four bytes the greedy choice of slots is
  optimal exactly when they come in address order, or out of it by more than a slot can
  reach, which the code does not establish (`Trampolines.AlignedGreedyIff`, and
  `Trampolines.GreedyNeedsAddressOrder` for slots of any alignment).
- The identifier of a private file is there to tell generated names apart. For
  strings they always differ (`PrivateNames.StringsStayDifferent`); a padded script
  name comes from a hash and can be that of another (`PrivateNames.TwoScriptsCollide`;
  `PrivateNames.ScriptsCollideIff` says when, for names of any length).
- A string with several records is renamed as often, which is harmless exactly when its
  new text is not renamed further (`PrivateTexts.TwiceIsOnceIff`); the results are for
  private files that leave such strings alone (`PrivateRun.TextsStable`).

Layout assumptions are predicates: `WholeRun.WellLaidOut` says that the header, the
export table, the import and dev string records, the code covered by checksums,
and the dead operands with the marks around them keep apart, and
`PrivateRun.TextLayout` the same of the strings. Nothing is said of scripts that are
laid out otherwise. `LocalRun.LocalLayout` asks the same of local variables, when they
are removed: functions have the same preamble or none in common, and the names lie in
no table, string or dead operand. `HashRun.HashesAway` asks that the hashes of a private
file are rewritten only in such bytes; `HashRun.RuledOutIsEnough` says how to see it.
`WholeRun.SampleIsWellLaidOut`,
`PrivateRun.SampleTexts` and `LocalRun.SampleLocals` describe scripts, with an export
whose function has a local variable and a dev call whose operand is killed, that are
laid out this way, and `LocalRun.LayoutIsMet` gives one.

## Model

| member | source | states |
|---|---|---|
| Obfuscator.GscObfuscator.RunTasks | src/gsc-obf/gsc_obfuscator.cpp:413-434 | a run over a well laid out script, under any options and private file: it stops when the local variables of a function do not fit, does not end when the loop of some hash does not, and otherwise the renamed names are exactly the private single exports, numbered 1..n; every export, entered at its new address, reaches its old code; exports and imports carry their renamed names; strings, script name and includes read as the private file says; local variables are numbered; every dev call is an assert whose killed operands are read at the junk slot, dev string records and their table are gone, the slots freed are exactly the other words of dead operands, and every one of them is given to an export within its reach, or left because no export without one is; trampolines off, every export keeps its address; every checksum agrees with the final bytes; and every byte that none of this is about is as it was, or as the rewriting of hashes, in some order of the table, left it |
| Obfuscator.GscObfuscator.RemoveNames | src/gsc-obf/gsc_obfuscator.cpp:417-419 | the removal of local names, or nothing when disabled: all that later passes ask for is still there |
| Obfuscator.GscObfuscator.TasksAfterLocals | src/gsc-obf/gsc_obfuscator.cpp:420-433 | the same promise for the passes after it |
| Obfuscator.GscObfuscator.ApplyPrivateTexts | src/gsc-obf/gsc_obfuscator.cpp:423-424 | both passes over the texts: exactly the named ones change, and everything the later passes need is in place |
| Obfuscator.GscObfuscator.TasksAfterTexts | src/gsc-obf/gsc_obfuscator.cpp:426-433 | everything after the hashes: the promise of the run, from any script renamed, with its texts in place and live bytes outside them rewritten |
| Obfuscator.GscObfuscator.TasksAfterRenaming | src/gsc-obf/gsc_obfuscator.cpp:426-433 | dev passes, trampolines and checksums: the same promise over the bytes of the script they start with |
| Obfuscator.GscObfuscator.TrampolinesAndChecksums | src/gsc-obf/gsc_obfuscator.cpp:430-433 | the last two passes: freed slots shared out over the addresses as they are, each export redirected to its slot, and checksums of what comes out |
| Obfuscator.GscObfuscator.RenamePrivate | src/gsc-obf/gsc_obfuscator.cpp:420-422 | the renaming, or nothing when it is disabled |
| Obfuscator.GscObfuscator.KillDev | src/gsc-obf/gsc_obfuscator.cpp:426-429 | both dev passes: every dev call and dev string is dealt with, every byte that no event writes and no dead operand holds is as it was, the slots are exactly the words of dead operands; or nothing when disabled |
| Obfuscator.GscObfuscator.Trampolinate | src/gsc-obf/gsc_obfuscator.cpp:430-432 | the trampolines: slots given and slots left are the freed ones, an export goes without only when no slot left reaches it, for exports in address order no choice serves more, and every export given one is entered through it; or none at all when disabled |
| WholeRun.WholeRunKeepsMeaning | src/gsc-obf/gsc_obfuscator.cpp:420-433 | renaming, dev passes, trampolines and checksums together: exports reachable at their slot or their old address, freed slots shared out, names as renamed, dev calls and dev strings dealt with, and every other byte as it was, told from the script they start with |
| WholeRun.ImportIsKept | src/gsc-obf/gsc_obfuscator.cpp:420-433 | no pass changes the namespace, address count and flags of an import, nor, when it is not a killed dev call, any byte past its name, call sites included |
| WholeRun.ExportIsKept | src/gsc-obf/gsc_obfuscator.cpp:420-433 | no pass changes an export's namespace, parameter count, flags and padding |
| PrivateRun.ConcludeRun | src/gsc-obf/gsc_obfuscator.cpp:420-433 | with the texts replaced in between, the same promise told from the script before the renaming |
| LocalRun.ConcludeWithLocals | src/gsc-obf/gsc_obfuscator.cpp:413-434 | with the local names removed first, the same promise told from the loaded script, and every local variable numbered |
| HashRun.RunThroughHashes | src/gsc-obf/gsc_obfuscator.cpp:413-434 | the promise of the whole run, told from the loaded script, with local names removed first and hashes rewritten in between |
| HashRun.MeaningBeforeHashes | src/gsc-obf/gsc_obfuscator.cpp:425-433 | what the rest of the run promises from the script with rewritten hashes holds from the one before them: the same entry points, names, dev calls and bytes |
| HashRun.NamesAfterHashes | src/gsc-obf/gsc_obfuscator.cpp:330-342 | rewriting live bytes leaves the layout, the tables and the names in them for the passes that follow |
| HashRun.AwayAfterLocals | src/gsc-obf/gsc_obfuscator.cpp:417-425 | what is asked of where hashes stand, asked of the loaded script, holds once the local names are removed |
| HashRun.RuledOutIsEnough | src/gsc-obf/gsc_obfuscator.cpp:330-342 | that the rewriting stays where it may follows from the bytes where it may not: enough that they rule out every hash of the table |
| HashRun.NoHashesAway | src/gsc-obf/gsc_obfuscator.cpp:330-342 | a private file without hashes meets what the run asks of them on every script |
| LocalRun.LocalsKeepLayout | src/gsc-obf/gsc_obfuscator.cpp:417-425 | removing local names leaves tables, texts and dev operands laid out as they were |
| PrivateRun.TextsInPlace | src/gsc-obf/gsc_obfuscator.cpp:285-328 | the string pass and the script pass one after the other replace every text by what the private file says of the loaded script |
| PrivateRun.DevIsReady | src/gsc-obf/gsc_obfuscator.cpp:420-425 | renamed and with its texts replaced, a script is laid out as before |
| PrivateRun.LinksComeThrough | src/gsc-obf/gsc_obfuscator.cpp:413-434 | after the run an import that is no killed dev call names exactly the exports it named before, whenever the numbering captures nothing |
| PrivateRun.IncludesComeThrough | src/gsc-obf/gsc_obfuscator.cpp:413-434 | after the run every include in backslash form, with the extension of the script's own side, is the new name of the script it named |
| PrivateRun.HeaderComesThrough | src/gsc-obf/gsc_obfuscator.cpp:413-434 | the magic number and every header byte but the dev string table's offset and count come through the run |
| PrivateRun.ImportsComeThrough | src/gsc-obf/gsc_obfuscator.cpp:413-434 | after the run, walking the import table finds the same records; a killed dev call keeps its namespace, address count and flags, any other import every byte but its name |
| PrivateRun.ExportsComeThrough | src/gsc-obf/gsc_obfuscator.cpp:413-434 | after the run every export has the namespace, parameter count, flags and padding it had |
| WholeRun.RenamingKeepsLayout | src/gsc-obf/gsc_obfuscator.cpp:260-283 | renaming leaves the layout every later pass needs, and all export addresses |
| DevRun.PassesAreOneRun | src/gsc-obf/gsc_obfuscator.cpp:217-258 | the string pass, started where the import pass ended, completes one run of events told from the first script |
| DevRun.DevSlotsAreFree | src/gsc-obf/gsc_obfuscator.cpp:217-258 | the slots the passes leave lie in the script, four bytes or more apart, outside header and export table |
| DevRun.EveryRecordDone | src/gsc-obf/gsc_obfuscator.cpp:217-258 | after both passes every dev call is named assert with one parameter, each killed operand is read at the one junk slot, every dev string record is zero, the dev string table has no offset and no count, the slots are the words of dead operands, and the marks are there |
| DevRun.SlotsAreDeadWords | src/gsc-obf/gsc_obfuscator.cpp:217-258 | whatever the order, the junk slot and the free list are exactly the aligned words of the operands that are killed, each once |
| DevRun.MarksStay | src/gsc-obf/gsc_obfuscator.cpp:172-178 | 0xdead before the instruction and 0xbeef behind the operand of every kill are there at the end, wherever no other event writes and no dead operand lies |
| DevHarvest.HarvestIsDead | src/gsc-obf/gsc_obfuscator.cpp:162-170 | a pass gathers a word if and only if it is an aligned word of an operand that some record of the table kills |
| DevRun.ImportsStillThere | src/gsc-obf/gsc_obfuscator.cpp:217-258 | after both passes, in any order of the imports, walking the import table again finds the same records |
| DevRun.ImportByteSpared | src/gsc-obf/gsc_obfuscator.cpp:217-258 | the passes leave an import that is no dev call alone, and of a dev call the namespace, address count and flags |
| Obfuscator.GscObfuscator.RemoveLocalVariables | src/gsc-obf/gsc_obfuscator.cpp:184-215 | in some order of the names, every function once: the new script is what removing their local names one after the other gives, and the pass stops at the first whose variables do not fit |
| Obfuscator.GscObfuscator.RemoveLocal | src/gsc-obf/gsc_obfuscator.cpp:187-212 | one function: the aligned preamble, the opcodes that create variables, the count, the bounds test, and numbers instead of names |
| LocalNames.NumberedNames | src/gsc-obf/gsc_obfuscator.cpp:201-210 | the variables of one table are numbered from one, but for a variable argument list; nothing but names changes |
| LocalNames.LocalsNamedMeans | src/gsc-obf/gsc_obfuscator.cpp:187-210 | from the next even address an opcode that creates variables and a count, from the next multiple of four eight bytes each: every variable without mask 2 in its flags has its number for a name |
| LocalNames.LocalByteIff | src/gsc-obf/gsc_obfuscator.cpp:187-210 | a byte is one of a local name if and only if it is in such a table, behind such an opcode, within its count, and all of the table fits |
| LocalNames.EveryLocalNumbered | src/gsc-obf/gsc_obfuscator.cpp:184-215 | in whatever order, and with functions that share a preamble: the pass succeeds exactly when all variables fit, and then every local variable has its number and nothing else changed |
| Obfuscator.GscObfuscator.constructor | src/gsc-obf/gsc_obfuscator.cpp:60-75 | empty tables, no slots and no junk slot over the given script |
| Obfuscator.GscObfuscator.Load | src/gsc-obf/gsc_obfuscator.cpp:60-113 | succeeds exactly on a loadable script; then both tables hold the records in table order, filed by name |
| ScriptTables.LoadableIff | src/gsc-obf/gsc_obfuscator.cpp:60-113 | which scripts load: their size, the magic number byte by byte, room for the export table and for the least code of each export, and a table of consecutive imports |
| GscFormat.FlagsAreBits | src/gsc-obf/data/gsc_data_t7.hpp:63-78 | private, method and dev call are the masks 4, 1 and 0x10 of the flags |
| GscFormat.SameNameIff | src/gsc-obf/data/gsc_data_t7.hpp:38-54 | an import names an export if and only if the four bytes of name and the four of namespace are the same, wherever each record has them |
| Obfuscator.GscObfuscator.ReadExports | src/gsc-obf/gsc_obfuscator.cpp:76-95 | succeeds exactly when the table and all code fit; files every export by name |
| Obfuscator.GscObfuscator.ReadExport | src/gsc-obf/gsc_obfuscator.cpp:81-94 | one export: name, code and the length its checksum covers; fails exactly when the code does not fit |
| ScriptTables.ExportDataIs | src/gsc-obf/gsc_obfuscator.cpp:81-94 | the length filed for an export is the least positive one whose checksum is the recorded one, or zero when none is |
| Obfuscator.GscObfuscator.ReadImports | src/gsc-obf/gsc_obfuscator.cpp:96-113 | succeeds exactly when the walk over the variable-length records stays in the script; files every import by name |
| Obfuscator.GscObfuscator.ReadImport | src/gsc-obf/gsc_obfuscator.cpp:100-111 | one import: name and where the next record starts; fails exactly when the record does not fit |
| GscFormat.WalkIsTable | src/gsc-obf/gsc_obfuscator.cpp:96-112 | the walk yields a list of records if and only if they are the consecutive records of a table inside the script |
| GscFormat.RecordsApart | src/gsc-obf/gsc_obfuscator.cpp:96-112 | records lie in table order without overlap |
| GscFormat.RecordInTable | src/gsc-obf/gsc_obfuscator.cpp:96-112 | every record lies between the start of the table and the end of the walk |
| GscFormat.SameCountsSameWalk | src/gsc-obf/gsc_obfuscator.cpp:217-255 | where the counts are kept, as DevRun.ImportsStillThere and PrivateRun.ImportsComeThrough show them to be, walking again visits the same records |
| Grouping.CollectSelects | src/gsc-obf/gsc_obfuscator.hpp:26-43 | looking a name up finds exactly the records filed under it, in order |
| Grouping.VisitAll | src/gsc-obf/gsc_obfuscator.cpp:217-220 | visiting the groups of the map in any order visits every record exactly once |
| Obfuscator.GscObfuscator.KillPrivateExports | src/gsc-obf/gsc_obfuscator.cpp:260-283 | in some order of the export table, the private single exports get 1..n and the imports of the same name follow; nothing else changes |
| Obfuscator.GscObfuscator.KillPrivateExport | src/gsc-obf/gsc_obfuscator.cpp:263-282 | one name: renamed exactly when it is a private export defined once, otherwise the script is untouched |
| PrivateExports.RenameOne | src/gsc-obf/gsc_obfuscator.cpp:271-281 | writing one export and its group of imports extends the renaming by that name and no other |
| Linking.LinksPreservedIffNoCapture | src/gsc-obf/gsc_obfuscator.cpp:260-283 | for one numbering, every import resolves to the same exports as before if and only if no kept name of a renamed namespace is captured by a number given out |
| Linking.LinksPreservedInAnyOrder | src/gsc-obf/gsc_obfuscator.cpp:260-283 | linking survives every iteration order of the map if and only if no number in 1..n can capture a kept name |
| Linking.NumberingGiving | src/gsc-obf/gsc_obfuscator.cpp:262-283 | some iteration order gives any chosen number to any chosen private name |
| Obfuscator.GscObfuscator.KillDevByteCodeOp | src/gsc-obf/gsc_obfuscator.cpp:151-182 | one kill is one event of the model: bounds test, marks, harvest, and the offset redirected to the junk slot |
| Obfuscator.GscObfuscator.FreeOperand | src/gsc-obf/gsc_obfuscator.cpp:162-174 | the slots of an operand, in order; the first ever seen becomes the junk slot and is never freed |
| Obfuscator.GscObfuscator.MarkDead | src/gsc-obf/gsc_obfuscator.cpp:176-182 | the two marks around the operand and the redirected offset |
| Obfuscator.GscObfuscator.KillDevImport | src/gsc-obf/gsc_obfuscator.cpp:222-232 | one import record: a dev call gets the assert hash, one parameter, and all its operands killed; others are untouched |
| Obfuscator.GscObfuscator.KillDevImports | src/gsc-obf/gsc_obfuscator.cpp:217-234 | in some order of the names, every import record once: the new state is the run of the pass's events |
| Obfuscator.GscObfuscator.KillDevString | src/gsc-obf/gsc_obfuscator.cpp:243-253 | one string record: its operands killed, then offsets and record zeroed |
| Obfuscator.GscObfuscator.KillNextString | src/gsc-obf/gsc_obfuscator.cpp:243-253 | the next string record of the table: killed, with the following record found where it was |
| Obfuscator.GscObfuscator.KillDevStringRecords | src/gsc-obf/gsc_obfuscator.cpp:237-254 | every record of the dev string table in table order |
| Obfuscator.GscObfuscator.KillDevStrings | src/gsc-obf/gsc_obfuscator.cpp:236-258 | the records in table order, then the table's count and offset cleared |
| DevKill.OperandAlignment | src/gsc-obf/gsc_obfuscator.cpp:155-158 | the masked alignments of the code are the least multiples, the operand's end needs none, and an operand is accepted if and only if both marks lie in the script |
| DevKill.RunIsTold | src/gsc-obf/gsc_obfuscator.cpp:151-182 | at every point of a run the free list and junk slot are what the operands of the starting script say, and no pending offset was overwritten |
| DevKill.RunFrame | src/gsc-obf/gsc_obfuscator.cpp:151-182 | a run changes only the bytes its events list |
| DevKill.AcceptedIsRedirected | src/gsc-obf/gsc_obfuscator.cpp:176-182 | after its kill every accepted offset is the one junk slot of the whole run |
| DevKill.JunkIsStable | src/gsc-obf/gsc_obfuscator.cpp:166-170 | once set, the junk slot never changes |
| DevKill.HarvestDistinct | src/gsc-obf/gsc_obfuscator.cpp:162-174 | operands that are apart give distinct slots |
| DevKill.SlotsWellPlaced | src/gsc-obf/gsc_obfuscator.cpp:162-174 | in every state: the junk slot is not free, and every slot is a multiple of 4, at least 4 (so zero means none) and inside the script |
| DevKill.SlotsApart | src/gsc-obf/gsc_obfuscator.cpp:162-174 | junk slot and free list are exactly the harvest, without loss or overlap, when operands are apart |
| DevTables.PassUndisturbed | src/gsc-obf/gsc_obfuscator.cpp:217-258 | in any order of the records no event disturbs the offset of a later one |
| DevTables.HeaderStable | src/gsc-obf/gsc_obfuscator.cpp:222-253 | a record still shows its address count and flags until its last operand is killed |
| DevTables.LayoutOfPermutation | src/gsc-obf/gsc_obfuscator.cpp:217-220 | the layout does not depend on the order in which records are visited |
| Obfuscator.GscObfuscator.CreateTrampolines | src/gsc-obf/gsc_obfuscator.cpp:344-398 | over the sorted free list each export in table order gets the first slot in reach; the free list left over is the allocation's, and every given slot holds its jump |
| Obfuscator.GscObfuscator.TrampolineFor | src/gsc-obf/gsc_obfuscator.cpp:351-397 | one export: its slot taken from the list, or passed over when none reaches it |
| SlotPass.AllocationShares | src/gsc-obf/gsc_obfuscator.cpp:344-398 | what becomes of the freed slots: shared out one to one within reach, none in reach left over, and as many as possible for exports in address order |
| Obfuscator.GscObfuscator.WriteJump | src/gsc-obf/gsc_obfuscator.cpp:380-386 | opcode, signed delta and the export's new address; nothing else |
| Trampolines.SlotsConserved | src/gsc-obf/gsc_obfuscator.cpp:351-378 | used and remaining slots together are the initial free list as a multiset |
| Trampolines.NoReachableSlotLeft | src/gsc-obf/gsc_obfuscator.cpp:362-378 | an export stays without trampoline only if no remaining slot is in its reach |
| Trampolines.AllocationIsMatching | src/gsc-obf/gsc_obfuscator.cpp:351-378 | the allocation is one to one and within signed 16-bit reach |
| Trampolines.GreedyIsOptimal | src/gsc-obf/gsc_obfuscator.cpp:345-378 | for distinct sorted slots and exports in address order, or out of it by more than a slot can reach, no one-to-one assignment within reach has more trampolines |
| Trampolines.SortedGreedyIsOptimal | src/gsc-obf/gsc_obfuscator.cpp:345-378 | the same whatever order the slots were freed in, since the list is sorted first |
| Trampolines.AlignedGreedyIsOptimal | src/gsc-obf/gsc_obfuscator.cpp:345-378 | with slots that are multiples of four, as the program frees them, the same for addresses told apart by their quarter only, any number of exports sharing one |
| Trampolines.AlignedGreedyIff | src/gsc-obf/gsc_obfuscator.cpp:351-378 | with those slots, for exports of different quarters, the greedy choice is best for every free list if and only if any two out of address order have quarters more than 0x3fff apart |
| Trampolines.GreedyNeedsAddressOrder | src/gsc-obf/gsc_obfuscator.cpp:351-378 | for exports at different addresses the greedy choice is best for every free list if and only if any two out of address order are more than 65535 apart |
| Trampolines.SortedIsPermutation | src/gsc-obf/gsc_obfuscator.cpp:345-347 | sorting orders the slots and keeps them as a multiset |
| Jumps.TrampolineLands | src/gsc-obf/gsc_obfuscator.cpp:382-385 | the truncated delta, read back with its sign from the end of the slot, lands on the old address |
| Jumps.EarlierKept | src/gsc-obf/gsc_obfuscator.cpp:351-397 | a later trampoline overwrites no earlier one |
| Jumps.RedirectOne | src/gsc-obf/gsc_obfuscator.cpp:380-386 | the loop step: one more export entered through its slot, everything else outside slots and address fields kept |
| Jumps.EveryExportReached | src/gsc-obf/gsc_obfuscator.cpp:351-397 | after the loop every export reaches its old address in at most one jump |
| Jumps.AllocationIsClear | src/gsc-obf/gsc_obfuscator.cpp:351-397 | slots given out are clear of the header, the export table and each other |
| Checksums.ComputeCRC32 | src/gsc-obf/gsc_obfuscator.cpp:36-45 | the byte fold over exactly `len` bytes, finished |
| Checksums.FindExportSizeByCrc | src/gsc-obf/gsc_obfuscator.cpp:47-54 | the least matching length, or zero |
| Checksums.LeastLengthIsLeast | src/gsc-obf/gsc_obfuscator.cpp:47-54 | the search answers r if and only if r is the least positive matching length, or zero and none matches |
| Checksums.ChecksumByStates | src/gsc-obf/gsc_obfuscator.cpp:36-45 | the checksum is what the last of the running states finishes to, from the initial state over the bytes in order |
| Checksums.SearchFindsRecorded | src/gsc-obf/gsc_obfuscator.cpp:47-54 | searching for the checksum of n bytes stops at n or before |
| Obfuscator.GscObfuscator.ComputeChecksums | src/gsc-obf/gsc_obfuscator.cpp:399-411 | in some order of the names every covered export records the checksum of its final bytes; no other byte changes |
| Obfuscator.GscObfuscator.ComputeChecksum | src/gsc-obf/gsc_obfuscator.cpp:402-408 | one export |
| ChecksumPass.ChecksumOf | src/gsc-obf/gsc_obfuscator.cpp:399-411 | each export ends with the checksum of its first byte, or recomputed over the length the old one covered, or untouched when it covered none |
| ChecksumPass.LaterSearch | src/gsc-obf/gsc_obfuscator.cpp:399-411 | a later search finds the new checksum at exactly one byte in remove mode, at the least matching length up to the old one in recompute mode |
| Obfuscator.GscObfuscator.ApplyPrivateHash | src/gsc-obf/gsc_obfuscator.cpp:334-340 | one entry: rewrites the first occurrence until none is left; says so when the loop would never end |
| Obfuscator.GscObfuscator.ApplyPrivateHashes | src/gsc-obf/gsc_obfuscator.cpp:330-342 | the entries one after the other in some order of the map |
| HashRewrite.StepMoves | src/gsc-obf/gsc_obfuscator.cpp:338-340 | each rewrite moves the script, read as one base-256 number, strictly towards the replacement's side of the hash |
| HashRewrite.RewriteRemovesHash | src/gsc-obf/gsc_obfuscator.cpp:338-340 | on exit no occurrence is left, the length is kept, and the script changed only if the hash occurred |
| HashRewrite.LoopEndsIffReplacementDiffers | src/gsc-obf/gsc_obfuscator.cpp:338-340 | the loop ends if and only if the replacement differs from the hash or the hash does not occur |
| HashRewrite.EntryIsLoop | src/gsc-obf/gsc_obfuscator.cpp:338-340 | one entry is the loop: it answers the script some turn reaches that has no hash left, and none exactly when every turn leaves one |
| HashRewrite.OnePassSufficesIff | src/gsc-obf/gsc_obfuscator.cpp:338-340 | on every script the loop equals a single left-to-right pass if and only if no written replacement can join with its surroundings into the hash anew |
| HashRewrite.RewriteIsOnePass | src/gsc-obf/gsc_obfuscator.cpp:338-340 | for such a replacement the loop equals the pass from any position before which there is no occurrence |
| HashRewrite.BorderedNeedsMoreThanOnePass | src/gsc-obf/gsc_obfuscator.cpp:338-340 | for any other replacement there is a script on which one pass is not enough |
| HashRewrite.EntriesSpare | src/gsc-obf/gsc_obfuscator.cpp:332-341 | bytes that rule every hash of the table out of the words they are in are never changed, whatever the order and however replacements join |
| HashRewrite.LastEntryGone | src/gsc-obf/gsc_obfuscator.cpp:332-341 | after all entries the last one's hash is gone |
| HashRewrite.LaterEntryCanRestore | src/gsc-obf/gsc_obfuscator.cpp:332-341 | a later entry brings an earlier hash back in every script that holds its own hash and not the first byte of the earlier one |
| HashRewrite.HashRestoredIff | src/gsc-obf/gsc_obfuscator.cpp:332-341 | an entry brings back an absent hash its replacement cannot join into if and only if the replacement is that hash and its own hash occurs |
| HashRewrite.EntriesAllGone | src/gsc-obf/gsc_obfuscator.cpp:332-341 | after all entries no listed hash occurs, when no later replacement is, or can join with the bytes around it into, an earlier hash |
| HashRewrite.AllGoneIffNoneRestored | src/gsc-obf/gsc_obfuscator.cpp:332-341 | for different hashes without such joins, all of them end up absent from every script if and only if no later replacement is the hash of an earlier entry |
| HashRewrite.TurnBringsBackIff | src/gsc-obf/gsc_obfuscator.cpp:338-340 | some turn of the loop brings an absent hash back, on some script, if and only if the replacement is that hash or can join into it: it overlaps with it, and the at most seven bytes concerned did not hold it before |
| HashRewrite.LoopBringsBackIff | src/gsc-obf/gsc_obfuscator.cpp:338-340 | the whole loop brings an absent hash back on some script under the same condition, for a replacement that one pass can handle |
| HashRewrite.OverlapsAlreadyIsEnough | src/gsc-obf/gsc_obfuscator.cpp:338-340 | no join is possible when every overlap with the replacement was one with the hash it replaces |
| HashRewrite.PairGoneIff | src/gsc-obf/gsc_obfuscator.cpp:332-341 | two entries, the second replacement of the kind one pass can handle, leave no hash behind on any script if and only if that replacement neither is the first hash nor can join into it |
| HashRewrite.OverlapRestores | src/gsc-obf/gsc_obfuscator.cpp:332-341 | one shared byte is enough: a table and a script where the first hash is back although no replacement is a listed hash |
| HashRewrite.LoadableScriptRestored | src/gsc-obf/gsc_obfuscator.cpp:332-341 | a script that loads, three numbers, and a hash that comes back |
| HashMini.Hash64A | src/gsc-obf/utils/hash_mini.hpp:67-75 | the loop computes the fold over the text before the terminator |
| HashMini.HashStartInjective | src/gsc-obf/utils/hash_mini.hpp:67-75 | for every odd multiplier hashing a text is injective in the start value |
| HashMini.OneDifferenceNeverCollides | src/gsc-obf/utils/hash_mini.hpp:55-75 | texts that differ in exactly one place after lowering never share a 64-bit hash |
| HashMini.HashT7OneDifference | src/gsc-obf/utils/hash_mini.hpp:89-93 | nor a 32-bit HashT7 |
| HashMini.CaseAndSlashInvariant | src/gsc-obf/utils/hash_mini.hpp:55-65 | Hash64A, HashT7 and HashSecure ignore case and slash direction |
| HashMini.LowerIff | src/gsc-obf/utils/hash_mini.hpp:55-65 | two characters count as one if and only if they are the same, one letter in two cases, or the two slashes |
| HashMini.HashSecureIsOnePass | src/gsc-obf/utils/hash_mini.hpp:103-110 | HashSecure is one fold over the first character, the pattern and the rest |
| HashMini.HashT7IsFnvOfWidened | src/gsc-obf/utils/hash_mini.hpp:89-93 | the 64-bit computation truncated at the end is the 32-bit walk, step by step, over the lowered text and its terminating zero |
| HashMini.HashT7IsFnvIffAscii | src/gsc-obf/utils/hash_mini.hpp:67-93 | with at most one byte of 0x80 or more, it is FNV-1a over plain bytes if and only if there is none: `char` is sign-extended |
| PrivateNames.PrivateFile.EncodeVal | src/gsc-obf/private_file.cpp:13-28 | writes the base-38 digits that fit and a terminator, and nothing past it; fails exactly on no room |
| PrivateNames.PrivateFile.EncodeValTmp | src/gsc-obf/private_file.cpp:30-36 | the name of a number in a 16-byte buffer |
| PrivateNames.DecodeEncode | src/gsc-obf/private_file.cpp:18-27 | with room for n digits the text denotes the value modulo 38^n, in dictionary characters |
| PrivateNames.RowNameDecodes | src/gsc-obf/private_file.cpp:30-36 | the 16-byte buffer never truncates: at most 13 digits, and decoding gives the row exclusive-ored with the identifier |
| PrivateNames.RowNamesDistinct | src/gsc-obf/private_file.cpp:30-36 | distinct rows have distinct names |
| PrivateNames.PrivateFile.EncodeBuffer | src/gsc-obf/private_file.cpp:38-54 | fills exactly `start..end` with the rounds of digits of the continued hash |
| PrivateNames.PrivateFile.EncodeRound | src/gsc-obf/private_file.cpp:40-51 | one round: at least one digit, then until the hash or the range is used up |
| PrivateNames.FillIsDict | src/gsc-obf/private_file.cpp:38-54 | the padding has exactly the length asked for and only dictionary characters |
| PrivateNames.PrivateFile.CleanPath | src/gsc-obf/private_file.cpp:56-64 | in place, every slash before the terminator becomes a backslash and nothing else changes |
| PrivateNames.CleanSlashes | src/gsc-obf/private_file.cpp:56-64 | a cleaned text has no slash, a backslash for every slash, and every other character as it was |
| PrivateNames.PrivateFile.ReadFile | src/gsc-obf/private_file.cpp:66-136 | refuses exactly a file without two columns; otherwise the tables are the rows added in order, and the invariant on replacements holds |
| PrivateNames.PrivateFile.ReadRow | src/gsc-obf/private_file.cpp:77-133 | one row: string, hash, script, or skipped |
| PrivateNames.PrivateFile.NewScriptName | src/gsc-obf/private_file.cpp:101-125 | the row's name with the extension, padded to the script name's length, or none when too long |
| PrivateNames.PrivateFile.constructor | src/gsc-obf/private_file.cpp:11 | no names |
| PrivateNames.ReplacementDisguises | src/gsc-obf/private_file.cpp:100-129 | a stored replacement has its key's length and extension and only dictionary characters before it |
| PrivateNames.StringsAreLastRows | src/gsc-obf/private_file.cpp:81-91 | a string is stored if and only if a row stores it, and the last such row names it |
| PrivateNames.StringsStayDifferent | src/gsc-obf/private_file.cpp:81-91 | different strings of a file never become the same string |
| PrivateNames.HashesAreLastRows | src/gsc-obf/private_file.cpp:93-97 | a hash is stored if and only if a row names it, and its number, with the low half of the identifier taken off, is the last such row |
| PrivateNames.HashesStayDifferent | src/gsc-obf/private_file.cpp:93-97 | different hashes of a file of at most 2^32 rows never become the same number |
| PrivateNames.ScriptsAreLastRows | src/gsc-obf/private_file.cpp:100-135 | a script is stored exactly when a row stores it, and the last such row gives its replacement |
| PrivateNames.ScriptsCollideIff | src/gsc-obf/private_file.cpp:100-135 | two scripts of a file get the same name if and only if length and extension agree and the rows' numbers (a row's own, or the chain of hashes it is padded from) agree in base 38, digit count by digit count, over the length of the name; where both rows' own names fill it, only one and the same script does |
| PrivateNames.StemsEqualIff | src/gsc-obf/private_file.cpp:38-54 | for names of any length: two rows' stems are the same text if and only if their numbers agree: as many digits of both as the shorter has are equal modulo that power of 38, and what is left of the longer agrees with the next hash of the other, and so on |
| PrivateNames.FirstDigitsDecide | src/gsc-obf/private_file.cpp:38-54 | numbers that differ modulo 38 to the digits both show give different stems; where both have as many digits as the stem, that is the exact condition |
| PrivateNames.SameLengthHashes | src/gsc-obf/private_file.cpp:38-54 | two padded stems whose first hashes have as many digits, fewer than the stem, are the same if and only if the hashes are the same and so is what follows: different hashes never collide |
| PrivateNames.TwoScriptsCollide | src/gsc-obf/private_file.cpp:100-135 | whatever the identifier, some file gives two scripts the same name |
| PrivateNames.PrivateFile.RenamedString | src/gsc-obf/private_file.cpp:137-145 | in place, the text becomes the stored one; nothing past the old terminator changes |
| PrivateNames.PrivateFile.RenamedScript | src/gsc-obf/private_file.cpp:146-154 | in place, the name becomes the stored one of the same length; nothing else changes |
| PrivateNames.PrivateFile.RenamedScriptExt | src/gsc-obf/private_file.cpp:156-168 | in place, the include becomes its script's new name without extension, of the same length; nothing else changes |
| PrivateNames.IncludeStillNames | src/gsc-obf/private_file.cpp:146-168 | an include that names a script still names it after renaming if and only if the name has no slash or its backslash form is not a private script |
| PrivateNames.SlashFormLosesItsScript | src/gsc-obf/private_file.cpp:146-168 | a slash-form include moves on while its script keeps its name |
| LocalRun.LayoutIsMet | src/gsc-obf/gsc_obfuscator.cpp:60-113 | there is a script laid out as every pass asks, with an export whose function has a local variable and a dev call whose operand is killed |
| Obfuscator.GscObfuscator.ApplyPrivateStrings | src/gsc-obf/gsc_obfuscator.cpp:285-302 | every referenced string of the string table gets its new text, also when several records share it, and no byte outside the strings changes |
| Obfuscator.GscObfuscator.ApplyPrivateScripts | src/gsc-obf/gsc_obfuscator.cpp:304-328 | a script gets its own name renamed, and its includes by the ending of that name: .gsc and .gsh include .gsc, .csc and .csh include .csc, and such an include still names its script; nothing else changes, and a script with any other ending is untouched |
| PrivateTexts.OwnNameDecides | src/gsc-obf/gsc_obfuscator.cpp:307-327 | what the ending of the script's own name says of its includes, for every script whose texts read as they should |
| Obfuscator.GscObfuscator.RenameIncludes | src/gsc-obf/gsc_obfuscator.cpp:321-327 | every include of the table, once the name is done, also when several share a text |
| PrivateTexts.TextDoneAgain | src/gsc-obf/gsc_obfuscator.cpp:300-302 | a string that several records share, renamed again with the same result, stays as it is |
| PrivateTexts.TwiceIsOnceIff | src/gsc-obf/private_file.cpp:137-145 | renaming a string a second time gives the same text if and only if its new text is no key, or its own replacement |
| PrivateTexts.NewTextsFit | src/gsc-obf/private_file.cpp:146-168 | new names and includes have the old ones' lengths and hold no terminator, so they are written in place |
| PrivateTexts.TextStep | src/gsc-obf/gsc_obfuscator.cpp:285-327 | renaming one more string leaves the earlier ones renamed and everything else as it was |
| PrivateTexts.TextStill | src/gsc-obf/gsc_obfuscator.cpp:285-327 | before its turn a string still reads as it did |
| FastfileFormat.ReadOne | src/gsc-obf/fastfile.cpp:74-117 | one block: refuses a wrong position, a read past the end or a failing codec; otherwise moves forward and never shrinks the largest block |
| FastfileFormat.EmptyBlockSkips | src/gsc-obf/fastfile.cpp:84-87 | an empty block anywhere sends the reader to the least multiple of 0x800000 behind its header, or is refused exactly when that is past the end |
| FastfileFormat.HeaderAcceptedIff | src/gsc-obf/fastfile.cpp:38-62 | exactly which headers are accepted, byte by byte, and which reason is given first |
| FastfileFormat.CodecByHeader | src/gsc-obf/fastfile.cpp:9-33 | the library each header byte stands for, no two bytes for one codec, and none for the others |
| FastfileFormat.ReadBlocks | src/gsc-obf/fastfile.cpp:74-117 | reading ends on every file; it keeps the announced size and finds a block size of at least one as soon as there is data |
| FastfileFormat.Unpack | src/gsc-obf/fastfile.cpp:35-126 | what is read can be written: an accepted header without signature, the announced amount of data, a usable block size |
| Fastfiles.DecompressFastfile | src/gsc-obf/fastfile.cpp:35-126 | the reader is `Unpack`: same checks in the same order, same result or error |
| Fastfiles.ReadBlock | src/gsc-obf/fastfile.cpp:75-116 | one turn of the reading loop is `ReadOne` |
| Fastfiles.CompressFastfile | src/gsc-obf/fastfile.cpp:127-174 | the writer is `Pack`: header, then block after block |
| Fastfiles.AppendBlock | src/gsc-obf/fastfile.cpp:152-160 | block header, compressed data and the padding of the whole file |
| Fastfiles.AlignVector | src/gsc-obf/utils/utils.hpp:210-219 | zeros up to the next multiple of four |
| FastfileFormat.BlockFields | src/gsc-obf/fastfile.cpp:152-160 | on a file of aligned length the aligned size written in the header is exactly what follows it, every field reads back, and the padding is zero |
| FastfileFormat.HeaderIsWritten | src/gsc-obf/fastfile.cpp:127-131 | a written file starts with the header it was given, signature field included |
| FastfileFormat.BlockEnds | src/gsc-obf/fastfile.cpp:152-160 | the loop invariant: a block written on a multiple of four ends on one |
| FastfileFormat.ReadWritten | src/gsc-obf/fastfile.cpp:74-117 | reading one written block gives its part back, or refuses its position when it starts past 32 bits |
| FastfileFormat.ReadStream | src/gsc-obf/fastfile.cpp:74-173 | reading a written stream gives all data back exactly when every block starts below four gigabytes |
| FastfileFormat.ReadPadded | src/gsc-obf/fastfile.cpp:74-117 | a stream with any number of padded empty blocks between its blocks, of whatever sizes, reads back exactly when every block starts where 32 bits can say so |
| FastfileFormat.PaddedRoundTrip | src/gsc-obf/fastfile.cpp:35-126 | a file padded anywhere reads as its header without signature, its contents and its largest block, under the same condition |
| FastfileFormat.RoundTrip | src/gsc-obf/fastfile.cpp:35-174 | decompressing a compressed file gives the same contents, header without signature and block size, if and only if every block starts below four gigabytes; otherwise a position is refused |
| FastfileFormat.NormalForm | src/gsc-obf/fastfile.cpp:35-174 | recompressing any readable file, padding blocks included, keeps what it reads as, and doing it again gives the identical file |
| FastfileFormat.UncompressedRoundTrip | src/gsc-obf/fastfile.cpp:35-174 | without a library: every uncompressed file up to four gigabytes in blocks under two always round trips |
| Compression.Decompress2 | src/gsc-obf/utils/compress_utils.cpp:75-83 | writes only the destination; a negative result exactly when it cannot decompress |
| Compression.Compress | src/gsc-obf/utils/compress_utils.cpp:188-196 | the compressed bytes at the start of the destination, or none when they do not fit |
| Compression.CompressBuffer | src/gsc-obf/utils/compress_utils.cpp:298-312 | allocates enough: it fails only when the compressor does |
| Compression.NoneUndoesIff | src/gsc-obf/utils/compress_utils.cpp:78-83 | uncompressed blocks come back if and only if they are under two gigabytes, since the size is returned as a signed `int` |
| Compression.NoneDecompresses | src/gsc-obf/utils/compress_utils.cpp:75-83 | without a library a block is copied to the front of its destination, whose rest stays, and refused exactly when it is longer or its size is negative as an `int` |
| Compression.IsNulled | src/gsc-obf/utils/data_utils.cpp:56-90 | true if and only if every byte is zero, for every size |
| GscFinder.FindGscInBuffer | src/gsc-obf/gsc_finder.cpp:17-60 | ends on every buffer with the objects of the scan, or with the unterminated name it stopped at |
| GscFinder.ReadCandidate | src/gsc-obf/gsc_finder.cpp:33-56 | one record: same tests, same move of the cursor |
| GscFinder.ScanFindsScripts | src/gsc-obf/gsc_finder.cpp:28-57 | everything found is a record, a terminated script name and data of the recorded size with the magic, in increasing order without overlap |
| GscFinder.FirstScriptIsFound | src/gsc-obf/gsc_finder.cpp:28-57 | a script whose record is the first match is found, and the scan goes on after it |
| GscFinder.ScanVisits | src/gsc-obf/gsc_finder.cpp:28-57 | the scan is a walk from record to record, each the first behind what was consumed: the record and its name, and the data when name and size are a script's and it fits; its answer is the scripts met, or the name that has no end |
| GscFinder.EveryScriptIsFound | src/gsc-obf/gsc_finder.cpp:28-57 | nothing is missed: every script whose record does not start inside another record, its name or its data is found |
| GscFinder.ObjectsApart | src/gsc-obf/gsc_finder.cpp:28-57 | two found objects share no byte of name or data |
| GscFinder.RescanFindsTheSame | src/gsc-obf/gsc_finder.cpp:28-57 | after patching names and contents inside the found ranges, the same objects are found in the same places |
| Pipeline.RenamedIsScriptFile | src/gsc-obf/main.cpp:46 | the new name of a found script is still a script name of the same length |
| Pipeline.RunsPatch | src/gsc-obf/main.cpp:36-48 | renaming every found script and running over its contents leaves script names, magic numbers and everything outside the objects as the rescan needs them |
| Pipeline.PatchedFileReadsBack | src/gsc-obf/main.cpp:27-71 | read, patch, reshape the header and write: the result reads as the patched contents and holds the same scripts in the same places |
| ByteBuffers.ByteBuffer.constructor | src/gsc-obf/utils/bytebuffer.hpp:12 | a cursor at the start of the region |
| ByteBuffers.ByteBuffer.Goto | src/gsc-obf/utils/bytebuffer.hpp:36-41 | moves exactly when the location is in the region |
| ByteBuffers.ByteBuffer.ReadPtr | src/gsc-obf/utils/bytebuffer.hpp:48-58 | the location read from, or none exactly when the read would pass the end |
| ByteBuffers.ByteBuffer.ReadString | src/gsc-obf/utils/bytebuffer.hpp:60-73 | stops at the first zero byte, or fails exactly when there is none |
| ByteBuffers.ByteBuffer.Skip | src/gsc-obf/utils/bytebuffer_abstract.hpp:67-76 | the chunked loop skips n bytes exactly when they are there |
| ByteBuffers.ByteBuffer.Align | src/gsc-obf/utils/bytebuffer_abstract.hpp:78-84 | moves to the least multiple of any power of two at or above the cursor, and fails exactly when that is past the end |
| ByteBuffers.ByteBuffer.Find | src/gsc-obf/utils/bytebuffer.hpp:75-85 | the search as written, which adds the cursor a second time when it compares |
| ByteBuffers.ByteBuffer.FindMasked | src/gsc-obf/utils/bytebuffer.hpp:122-139 | the masked search from the cursor |
| Search.StringEnd | src/gsc-obf/utils/bytebuffer.hpp:60-73 | the position of the first zero byte from the cursor on, or none exactly when there is none |
| Search.FindFromIsLeast | src/gsc-obf/utils/bytebuffer.hpp:75-85 | the search answers a position if and only if it is the least match, and none if and only if nothing matches |
| Search.FindMaskedFromIsLeast | src/gsc-obf/utils/bytebuffer.hpp:122-139 | the same for the masked search |
| Search.FindIsExactAtStart | src/gsc-obf/utils/bytebuffer.hpp:75-85 | `Find` gives the least match on every contents if and only if the cursor is at the start, the pattern is empty, or it does not fit |
| Bits.AlignedIsLeastMultiple | src/gsc-obf/utils/utils.hpp:189-191 | the masked sum is the least multiple of a power of two when it does not wrap |
| Bits.AlignedWraps | src/gsc-obf/utils/utils.hpp:189-191 | when it wraps the result is zero |

## Left out

- RunTasks: for private files whose hashes occur, in what the passes before make of the
  script, only in live bytes that are of no table, string or local name
  (`HashRun.HashesAway`). Hash rewriting overwrites any four bytes that read as a hash;
  where they are of a table, a dead operand or a string nothing is said of the run.
- DecompressFastfile: a block larger than the rest of the contents, or longer than the
  file, makes the program read or write outside its buffers; the model stops with the
  error `OutOfBounds`.
- CompressFastfile: a block size of zero with data makes the program loop for ever; the
  model stops with the error `Endless`. A file that was read never has
  it (`FastfileFormat.Unpack`).
- Malformed tables after loading, and scripts whose parts overlap: the program leaves
  these undefined.
- Size arithmetic near 2^64: `pointer + size`, positions and vector sizes are
  unbounded; only the alignment's wrap-around is modelled (`Bits.AlignedWraps`).
- zlib, LZ4, Oodle and Zstandard: parameters of the model (`Compression.Libraries`),
  assumed to stay within their buffers; the growing buffers of the vector form of
  `Decompress` are not modelled.
- The checksum's polynomial: `Checksums.Crc32` is any start, step and finish.
- Hash values and bucket order of the maps, and the `script` field of a name, which
  is always zero.
- The game's own linker and interpreter, but for one jump: the target is the slot
  plus four plus the signed delta.
- Command line, files, directories, logging, messages and random numbers; parsing of
  the CSV file (rows are given) and the text of numbers.
- Header fields the program only copies: a fastfile header is its bytes, and the
  replacement of builder and compression is any other accepted header of the same
  size field (`Pipeline.Reheaded`).
- Hash functions of the header file that nothing here calls.
- ApplyPrivateStrings: strings that overlap without being the same, and a string record
  that shares the script's own name or an include, are not covered.
- LoopBringsBackIff: for a replacement that one pass cannot handle only the sufficient
  half is proved (HashRestoredIff); a hash it joins into may be overwritten again within
  the same loop.
- Patching inside the fastfile buffer: the rewriter's class works on an array of its
  own, and `Pipeline.RunsPatch` joins its results to the contents by value.
- HashT7IsFnvIffAscii: says nothing of texts with two or more bytes of 0x80 or above,
  whose differences could cancel; HashT7IsFnvOfWidened gives the value for every text.
