# subleq assembler — a verified Dafny model

The repository is a single-pass assembler for a subleq machine ("subtract and
branch if less than or equal to zero"). It exists in three variants:

- `main.cpp` and `assembler32.cpp` emit three 32-bit words per instruction
  (operands A, B and the jump target J). Every word that holds a symbolic
  address is remembered in the `relatives` set so that a linker can relocate
  it. The two files differ only in the `.ptr` entry of the data section.
- `assembler64.cpp` packs A, B and J into one 64-bit word, at bit 26, bit 13
  and bit 0 (`ADDRESS_WIDTH` is 13 for `MEM_WORDS` = 0x2000). It records
  `(address, field)` pairs for hex operands (`absolute`) and for pending
  references, and writes the size of the data section (`text_offset`).

Each variant works the same way. `readToken` splits the input on spaces,
tabs, CR, LF and CRLF, drops `/` comments and keeps track of the line each
token ended on. The `.export` section lists exported names. The `.data`
section binds labels to words (`.array`, `.iarray`, `.ptr` and plain words
in 32 bits; one numeral per label in 64 bits). The `.text` section holds
labels and instructions; a J operand left off the line makes the instruction
jump to the next word. Names used before they are defined stay pending. At
the end, a resolution pass patches every pending word whose name was defined
later (by addition in 32 bits, by OR in 64 bits). Names that were never
defined stay in the object file for the linker. The object file lists the
exports, the pending references, the relocation records and the code.

## Layout of the model

| module | models |
|---|---|
| `Wrappers` | `Option`, `Result` and the three ways a run can stop (`Unterminated`, `MemoryFull`, `BadNumber`) |
| `Words` | `u8`/`u32`/`u64`, `MEM_WORDS`, `field_t`, 32-bit wrap-around, little-endian integers, NUL-terminated names |
| `Bitwise` | bitwise OR on unsigned integers and the laws the 64-bit assembler needs |
| `Literals` | the decimal and `0x` numerals `parseData`, `parseField` and `readField` accept |
| `Lexer` | `readToken`: its result as a function (`Next`, `Read`) and the character loop as class `Lexer.Lexer` |
| `Ordering` | the visiting order of `std::set` and `std::map` (sorted) |
| `Sections` | the `.export` loop, shared by the three variants |
| `ObjectFile` | the 32-bit and 64-bit object-file layouts, with readers and round trips |
| `Writer` | the loops that write the export table and sorted address sets |
| `Semantics32` | `parseData`, `parseField`, the data and text loops, resolution and output of `main.cpp`/`assembler32.cpp`, as functions on values |
| `Assembler32` | the same as class `Assembler32.Assembler`, updating its tables and `mem` array in place, proved to agree with `Semantics32` |
| `Semantics64` | `readField`, the data and text loops, resolution and output of `assembler64.cpp`, as functions on values |
| `Assembler64` | class `Assembler64.Assembler`, updating its tables and `mem` array in place, proved to agree with `Semantics64` |

Each run ends either with the object file's bytes or with an error. An error
stands for an input on which the original program would loop forever or
write past its buffer, or for a numeral outside the plain decimal and `0x`
forms the model reads (see "Numerals" under "## Left out": this includes
numerals such as `-1`, `+5` or `5abc` that the C library reads to a definite
value).

## Model

| member | source | states |
|---|---|---|
| Words.Wrap32 | main.cpp:231 | the 32-bit result of `mem[*it] += address` is the sum itself when that fits and is congruent to it modulo 2^32 |
| Words.FieldOfIndex | assembler64.cpp:24-26 | exactly the values 0, 1 and 2 are `field_t` enumerators, and each decodes to the field it encodes |
| Words.Le32RoundTrip | main.cpp:244 | the 4 bytes written for a `uword_t` read back as the same value |
| Words.Le64RoundTrip | assembler64.cpp:264 | the 8 bytes written for a 64-bit word read back as the same value |
| Words.CString | main.cpp:249 | a name is written as its bytes followed by exactly one NUL |
| Words.GetCStringRoundTrip | main.cpp:249 | a NUL-free name written with its NUL reads back as the same name, leaving the bytes after it |
| Bitwise.BitOrScaled | assembler64.cpp:50 | ORing two numbers shifted up by `k` bits is shifting their OR up by `k` bits |
| Bitwise.BitOrComm | assembler64.cpp:49 | `x \| y == y \| x` |
| Bitwise.BitOrIdem | assembler64.cpp:49 | `x \| x == x` |
| Bitwise.BitOrAssoc | assembler64.cpp:49 | `\|` is associative, so the order in which fields are ORed into a word does not matter |
| Bitwise.BitOrBelow | assembler64.cpp:49 | the OR of two values below 2^k is below 2^k, so ORing 64-bit words stays in 64 bits |
| Bitwise.BitOrDisjoint | assembler64.cpp:156 | when `y` has no bit at or above k, `(q * 2^k) \| y` is the sum `q * 2^k + y` |
| Bitwise.BitOrAbsorbs | assembler64.cpp:184 | ORing in bits a word already has leaves it unchanged |
| Bitwise.BitOrHasFirst | assembler64.cpp:184 | `x \| y` keeps every bit of `x` |
| Literals.ParseDecimal | main.cpp:115-119 | a decimal numeral is read exactly when it is a non-empty string of digits |
| Literals.ParseHex | main.cpp:112-113 | a `0x` numeral is read exactly when at least one hex digit, and nothing else, follows the prefix |
| Literals.ParseNumber | main.cpp:110-121 | a token starting `0x` is read as hex, any other as decimal, and the value read is below the variable's limit |
| Literals.DecimalRoundTrip | main.cpp:116-118 | the decimal spelling of every number reads back as that number |
| Literals.HexRoundTrip | main.cpp:113 | the `0x` spelling of every number reads back as that number |
| Literals.ParseNumberCanonical | main.cpp:110-121 | every number below the limit is accepted in both spellings with its own value |
| Lexer.LineEnd | main.cpp:56 | skipping a comment stops at the first CR or LF, or at the end of input |
| Lexer.WordEnd | main.cpp:104 | a token extends over the longest run of characters other than space, tab, CR, LF and `/` |
| Lexer.Skip | main.cpp:45-100 | before a token, separators and comments are skipped up to the first character that starts a token, and the line counter never goes back |
| Lexer.Next | main.cpp:41-108 | a token never holds space, tab, CR, LF or `/`; the empty token is returned only at the end of input; a non-empty token consumes input; from the end of input nothing changes |
| Lexer.BreaksInOne | main.cpp:71-87 | CR, LF and CRLF each count as exactly one line break |
| Lexer.SeparatorBreaks | main.cpp:58-88 | a separator adds one line except a space or tab, and a comment ending the input without a line break |
| Lexer.SkipCountsLines | main.cpp:55-88 | skipping separators advances the line counter by the line breaks passed, plus one for a comment that ends the input |
| Lexer.NextCountsLines | main.cpp:41-108 | the line counter after a token has advanced by the line breaks consumed (exactly, when the input ends with a break), and `currentTokenLine` is the line on which the returned token lies |
| Lexer.SlashEndsWordButNotComment | main.cpp:47-53 | in `a/b` the `/` ends the token `a` and is consumed, so `b` is read as the next token instead of being skipped as a comment |
| Lexer.FinishInWord | main.cpp:45-107 | the character loop, started inside a token, returns the token up to the next separator and stops after a blank, `/` or one line break |
| Lexer.FinishIsNext | main.cpp:41-108 | the character loop, started between tokens, returns exactly what `Next` describes |
| Lexer.Read | main.cpp:41-43 | `readToken` makes `lastTokenLine` the previous `currentTokenLine`, returns `""` only at the end of input and never moves the cursor back |
| Lexer.Lexer.constructor | main.cpp:37 | a fresh tokenizer is at the start of the input, on line 1, with an empty buffer |
| Lexer.Lexer.ReadToken | assembler32.cpp:34-79 | the in-place `readToken` loop leaves the buffer, the cursor and the three line counters as `Read` describes |
| Lexer.Lexer.Consume | assembler64.cpp:66-104 | one turn of the character loop either stops with the token and line counters `readToken` returns or takes the step the state machine takes |
| Lexer.Lexer.SkipComment | assembler64.cpp:73 | the comment loop leaves the cursor at the comment's line break or the end of input |
| Sections.Label | main.cpp:168 | `buf.substr(0, buf.size() - 1)`: the label is the token without its last character |
| Sections.ExportSection | main.cpp:162-164 | the export loop ends on `.data` and only adds names; input ending before `.data` is an `Unterminated(".data")` error |
| Sections.ExportSectionAdds | main.cpp:162-164 | after the export loop a name is exported exactly when it was before or is a token read before `.data` |
| Sections.ExportSectionBytes | assembler64.cpp:119-121 | exported names read from a byte input are byte strings |
| Ordering.StrLtIrreflexive | main.cpp:31 | the string order of `std::set<string>` is irreflexive |
| Ordering.StrLtTransitive | main.cpp:31 | the string order is transitive |
| Ordering.StrLtTotal | main.cpp:31 | any two different strings are ordered one way or the other |
| Ordering.SortedStringsSpec | main.cpp:247 | the visiting order of a set of names is strictly increasing and holds exactly the set's names |
| Ordering.SortedWordsSpec | main.cpp:270 | the visiting order of a set of addresses is strictly increasing and holds exactly the set's addresses |
| Writer.Lookup | main.cpp:252 | `symbols[exp]` is the name's address, or 0 for a name that was never defined |
| Writer.ExportList | main.cpp:247-254 | the export table lists each name with `symbols[exp]` |
| Writer.WriteExports | main.cpp:243-254 | the export loop writes the count and then each name in set order with its NUL and its 4-byte address |
| Writer.WriteAddresses | main.cpp:277-284 | an address set is written as its count and then its addresses in increasing order, 4 bytes each |
| Writer.SortedNames | main.cpp:247 | iterating over a set of names visits them in sorted order |
| Writer.SortedAddresses | main.cpp:281 | iterating over a set of addresses visits them in increasing order |
| ObjectFile.Words32RoundTrip | main.cpp:290 | `n` 32-bit words written back to back read back as the same words |
| ObjectFile.SlotsRoundTrip | assembler64.cpp:250-258 | `(address, field)` pairs written as two 4-byte integers read back as the same pairs |
| ObjectFile.ExportsRoundTrip | main.cpp:247-254 | export entries read back as the same names and addresses |
| ObjectFile.Pending32RoundTrip | main.cpp:261-274 | 32-bit pending entries read back as the same names and address lists |
| ObjectFile.Pending64RoundTrip | assembler64.cpp:225-243 | 64-bit pending entries read back as the same names and `(address, field)` lists |
| ObjectFile.Decode32Encode32 | main.cpp:239-291 | every 32-bit object file whose names hold no NUL and whose counts fit 32 bits reads back as the object written |
| ObjectFile.Decode64Encode64 | assembler64.cpp:200-265 | every 64-bit object file whose names hold no NUL and whose counts fit 32 bits reads back as the object written |
| Semantics32.ParseData | main.cpp:110-121 | `parseData` gives the hex value of a `0x` token and the decimal value of any other; a malformed or out-of-range numeral is a `BadNumber` error |
| Semantics32.SplitOffset | main.cpp:132-134 | the part before the first `+` has no `+`, and with an offset the token is that part, `+` and the offset |
| Semantics32.ParseField | main.cpp:123-149 | a hex token gives its value and records nothing; a name always makes the word a relocation and cuts `buf` at `+`; a defined name gives its address and the `+N` is dropped; an undefined one leaves the word pending on it and gives N (0 without `+`); it fails only on a bad numeral |
| Semantics32.OffsetField | main.cpp:132-146 | `name+N` for a defined name gives the name's plain address; for an undefined name it gives N and leaves the word pending on the name |
| Semantics32.DecimalOffset | main.cpp:135-137 | every offset below 2^32 spelt in decimal is read as its value |
| Semantics32.Write | main.cpp:177 | `mem[mem_size++] = v` stores `v` at `mem_size` and moves on by one; a write at `MEM_WORDS` is a `MemoryFull` error |
| Semantics32.Bind | main.cpp:168 | a label is bound to the current `mem_size` and nothing else changes |
| Semantics32.DataEntry | main.cpp:168-189 | a data entry binds its label to the `mem_size` it starts at, only moves `mem_size` forward and leaves the exports alone |
| Semantics32.ArrayEntry | main.cpp:170-174 | `.array N` moves `mem_size` on by N and writes nothing |
| Semantics32.IArray | main.cpp:175-179 | `.iarray` writes words while the tokens stay on one line, stops on the first token of a new line and changes no word outside the ones it wrote |
| Semantics32.IArrayWords | main.cpp:175-179 | `.iarray` writes exactly one word per token it takes (each on the line of the token before it), from `mem_size` on and in order, each word the value `parseData` gives its token |
| Semantics32.IArrayValues | main.cpp:176-178 | the first token's word followed by the rest's words are the words of the whole `.iarray` line |
| Semantics32.PtrEntry | main.cpp:180-185 | `.ptr` writes exactly one word and binds no name |
| Semantics32.WordEntry | main.cpp:186-189 | a plain entry writes exactly one word, the numeral's value |
| Semantics32.PtrOperandMain | main.cpp:180-185 | main.cpp reads the target after `.ptr`: a defined target gives the word its address, and the token after the target starts the next entry |
| Semantics32.PtrOperandAsm32 | assembler32.cpp:151-154 | assembler32.cpp parses `.ptr` itself as the operand: the word is left 0 and pending on the name `.ptr`, and the target token becomes the next label |
| Semantics32.DataSection | main.cpp:167-190 | the data loop ends on `.text`, only moves `mem_size` forward and leaves the exports alone |
| Semantics32.TextStep | main.cpp:194-216 | each turn either consumes input or, for an omitted third operand, keeps the token and resets the operand counter |
| Semantics32.ImplicitJump | main.cpp:196-201 | with the third operand due and the token on a new line, the word at `mem_size` becomes `mem_size + 1`, is made a relocation, and the token is kept |
| Semantics32.TextLabel | main.cpp:203-208 | a text label binds to `mem_size`, writes nothing, keeps the operand counter, and `start:` exports `start` |
| Semantics32.TextOperand | main.cpp:210-215 | an operand token writes `parseField`'s value into one word, moves `mem_size` by one and the operand counter on modulo 3 |
| Semantics32.TextEnds | main.cpp:194 | the text loop stops when `readToken` returns nothing |
| Semantics32.TextSectionFirst | main.cpp:194-216 | a text section that succeeds from a token takes one successful turn and succeeds from where that turn leaves it, with the same result |
| Semantics32.ParseFieldGrows | main.cpp:123-149 | `parseField` rewrites no word and only adds pending addresses |
| Semantics32.WriteGrows | main.cpp:177 | `mem[mem_size++] = v` rewrites no word below `mem_size` |
| Semantics32.GrowsTrans | main.cpp:166-216 | "rewrites no word below `mem_size` and drops no pending address" composes across steps |
| Semantics32.DataEntryGrows | main.cpp:168-189 | a data entry rewrites no word below the `mem_size` it starts at and drops no pending address |
| Semantics32.DataSectionGrows | main.cpp:166-190 | the data loop rewrites no word below the `mem_size` it starts at and drops no pending address |
| Semantics32.TextStepGrows | main.cpp:194-216 | a turn of the text loop rewrites no word below `mem_size` and drops no pending address |
| Semantics32.TextSectionGrows | main.cpp:194-216 | the text loop rewrites no word below the `mem_size` it starts at and drops no pending address |
| Semantics32.ForwardOffsetStep | main.cpp:131-142 | the turn that reads `name+N` for a name not yet defined writes N at `mem_size` and leaves that address pending on `name`; it fails when N is not a decimal numeral below 2^32 |
| Semantics32.PendingPatched | main.cpp:221-235 | in any later state that defines `name`, resolution adds the address of `name` to a word that was pending on it, whose value has not changed since |
| Semantics32.PendingResolved | main.cpp:194-235 | a word pending on `name` keeps its value and its pending entry through the rest of the text loop, and resolution then adds the address of `name` to it if `name` is defined by then |
| Semantics32.ForwardOffsetThen | main.cpp:131-232 | the turn that reads `name+N`, then the rest of the text loop, then resolution: the word ends as N plus the address of `name`, modulo 2^32 |
| Semantics32.ForwardOffsetResolved | main.cpp:131-232 | an operand `name+N` read before `name` is defined ends, after the text loop and resolution, as N plus the address of `name` modulo 2^32, if `name` is defined by then |
| Semantics32.TextStart | main.cpp:159-192 | the text section starts from a token inside the input and a buffer of `MEM_WORDS` words |
| Semantics32.TextStartThen | main.cpp:159-216 | a run is its text loop from where the data section leaves off, and the invariants hold there |
| Semantics32.ReachesKeeps | main.cpp:194-216 | every state the text loop passes through keeps the invariants, and the loop ends from there as it does from its start |
| Semantics32.AssembleForwardOffset | main.cpp:131-235 | over a whole run: an operand `name+N` read at any point of the text section before `name` is defined holds, in the output, N plus the address of `name` modulo 2^32 whenever `name` is defined by the end |
| Semantics32.Resolve | main.cpp:221-235 | resolution erases exactly the pending names that are defined, keeps the others with their address sets, and changes no word that is not pending on a defined name |
| Semantics32.ResolvePatches | main.cpp:230-232 | every word pending on a defined name gets the name's address added to it, modulo 2^32 |
| Semantics32.OwnerIs | main.cpp:221-235 | a word pending on a defined name lies below `mem_size` and is pending on that name alone, so resolution patches it once |
| Semantics32.ParseKeeps | main.cpp:159-216 | after the three sections every relocation lies below `mem_size`, every pending word is a relocation, no word is pending on two names, labels lie at most at `mem_size` and names are byte strings |
| Semantics32.ResolveKeeps | main.cpp:221-235 | resolution keeps those invariants |
| Semantics32.AssembleKeeps | main.cpp:159-235 | a whole run up to the output keeps those invariants |
| Semantics32.ObjectExports | main.cpp:243-254 | the export table holds exactly the exported names, in strictly increasing order, each with `symbols[exp]` |
| Semantics32.ObjectPending | main.cpp:257-274 | the pending table holds exactly the unresolved names, sorted, each with exactly its addresses in increasing order |
| Semantics32.ObjectRelatives | main.cpp:277-290 | the relocation table holds exactly `relatives` in increasing order, and the code is `mem[0..mem_size)` |
| Semantics32.ObjectOfRoundTrip | main.cpp:239-291 | the bytes written read back as the tables and code, when no name holds a NUL and the tables have fewer than 2^32 entries |
| Assembler32.Assembler.constructor | main.cpp:31-37 | a fresh assembler has empty tables, `mem_size` 0 and whatever `mem` held when allocated |
| Assembler32.Assembler.ParseField | assembler32.cpp:94-120 | `parseField` updates `relatives`, `references` and `buf` as `Semantics32.ParseField` says, and returns its value |
| Assembler32.Assembler.Write | assembler32.cpp:157 | a word is stored in the `mem` array as `Semantics32.Write` says |
| Assembler32.Assembler.ExportSection | assembler32.cpp:133-135 | the export loop fills `exported` as `Sections.ExportSection` says and touches nothing else |
| Assembler32.Assembler.IArray | assembler32.cpp:146-150 | the `.iarray` loop leaves the array and the tokenizer as `Semantics32.IArray` says |
| Assembler32.Assembler.DataEntry | assembler32.cpp:139-159 | one data entry, in place, as `Semantics32.DataEntry` says for the file's dialect |
| Assembler32.Assembler.ArrayEntry | assembler32.cpp:141-145 | `.array`, in place, as `Semantics32.ArrayEntry` says |
| Assembler32.Assembler.PtrEntry | assembler32.cpp:151-155 | `.ptr`, in place, as `Semantics32.PtrEntry` says |
| Assembler32.Assembler.WordEntry | assembler32.cpp:156-159 | a plain word, in place, as `Semantics32.WordEntry` says |
| Assembler32.Assembler.DataSection | assembler32.cpp:138-160 | the data loop, in place, as `Semantics32.DataSection` says |
| Assembler32.Assembler.TextStep | assembler32.cpp:166-185 | one turn of the text loop, in place, with the operand counter it leaves, as `Semantics32.TextStep` says |
| Assembler32.Assembler.TextSection | assembler32.cpp:163-186 | the text loop, in place, as `Semantics32.TextSection` says |
| Assembler32.Assembler.Resolve | assembler32.cpp:191-205 | the resolution loop leaves `mem` and `references` as `Semantics32.Resolve` says |
| Assembler32.Assembler.Emit | assembler32.cpp:209-261 | the write block produces exactly the bytes of the object `Semantics32.ObjectOf` describes |
| Assembler32.Assembler.Parse | assembler32.cpp:130-186 | the three sections, in place, as `Semantics32.Parse` says |
| Assembler32.Assembler.Run | assembler32.cpp:128-265 | a whole run produces exactly the bytes `Semantics32.Output` gives, or the same error |
| Assembler32.ResolveWords | main.cpp:221-235 | the loop over `references` patches `mem` and leaves the pending table as `Semantics32.Resolve` says |
| Assembler32.VisitName | main.cpp:223-234 | one name of that loop patches its words and erases it exactly when it is defined |
| Assembler32.AddToWords | main.cpp:230-232 | each word of the address set gets the address added modulo 2^32 and no other word changes |
| Assembler32.WritePending | main.cpp:257-274 | the pending-reference loop writes the count and each name with its NUL, its address count and its sorted addresses |
| Semantics64.PackRecovers | assembler64.cpp:148-156 | with A, B and J below `MEM_WORDS` the instruction word is the sum of the three shifted fields, and shifting and masking gives each field back |
| Semantics64.FieldOverflow | assembler64.cpp:156 | a J of `MEM_WORDS + k` reads back as J `k` with a 1 carried into B |
| Semantics64.HexTruncation | assembler64.cpp:47-49 | a hex A operand keeps only its low 6 bits and a hex B operand its low 19 bits, because the shift is done in 32 bits; J is exact; A (B) is kept whole exactly when below 64 (2^19) |
| Semantics64.ParseWord | assembler64.cpp:126-133 | a data word is the hex value of a `0x` token (below 2^63) or the decimal value of any other; anything else is a `BadNumber` error |
| Semantics64.ParseAddress | assembler64.cpp:47-48 | a hex operand is read exactly when it is a well-formed numeral below 2^32 |
| Semantics64.ReadField | assembler64.cpp:44-59 | a hex operand ORs its 32-bit-shifted value in and appends `(mem_size, field)` to `absolute`; a defined name ORs its address in at the field's shift and records nothing; an undefined name adds no bits and appends `(mem_size, field)` to its pending list; only a bad hex numeral fails |
| Semantics64.Write | assembler64.cpp:165 | `mem[mem_size++] = instr` stores the word and moves on by one; a write at `MEM_WORDS` is a `MemoryFull` error |
| Semantics64.Bind | assembler64.cpp:124 | a label is bound to the current `mem_size` and nothing else changes |
| Semantics64.DataEntry | assembler64.cpp:124-133 | a data entry binds its label to `mem_size` and writes exactly one word, the numeral's value; its errors are end of input, a bad numeral and a full buffer |
| Semantics64.DataSection | assembler64.cpp:123-134 | the data loop ends on `.text` and changes only labels, words and `mem_size`, which never goes back |
| Semantics64.Operands | assembler64.cpp:148-154 | reading A and B touches only the pending lists and `absolute` and consumes input |
| Semantics64.TextStep | assembler64.cpp:137-166 | each turn of the text loop consumes input and keeps `text_offset` (what an instruction turn writes and records, for any operands, is stated by InstructionStep, OmittedJump, OmittedJumpTarget and GivenJump) |
| Semantics64.TextLabel | assembler64.cpp:138-146 | a text label binds to `mem_size`, writes nothing, and `start:` exports `start` |
| Semantics64.NamedOperands | assembler64.cpp:148-151 | two defined names fill the A and B fields with their addresses and record nothing |
| Semantics64.OmittedJumpWord | assembler64.cpp:154-159 | for A and B that are defined names: when the token after B is on a new line or missing, the word is `A, B, mem_size + 1` packed, nothing is recorded, and that token is kept for the next turn |
| Semantics64.GivenJumpWord | assembler64.cpp:154-165 | for A, B and J that are defined names on one line: the word is the three addresses packed and the next token is read |
| Semantics64.PlacedAboveJump | assembler64.cpp:44-59 | an A or B operand placed into a word, hex or named, sets no bit of the J field |
| Semantics64.OrKeepsJumpEmpty | assembler64.cpp:50 | ORing two words with empty J fields leaves the J field empty |
| Semantics64.ReadFieldAboveJump | assembler64.cpp:44-59 | reading an A or B operand into a word with an empty J field leaves it empty |
| Semantics64.OperandsLeaveJumpEmpty | assembler64.cpp:148-151 | whatever the A and B operands are, the word they build has an empty J field |
| Semantics64.JumpFilled | assembler64.cpp:155 | an address below `MEM_WORDS` ORed into an empty J field is what the field then holds |
| Semantics64.InstructionStep | assembler64.cpp:148-165 | for any operands, an instruction fails as its A and B operands fail, fails when the buffer is full, and succeeds only when A and B were read |
| Semantics64.OmittedJump | assembler64.cpp:154-159 | for any A and B, with J left out: one word is written at `mem_size` and no other word changes, `mem_size` moves by one, labels and exports stay, the look-ahead token is kept, only A and B are recorded, and the word is theirs ORed with `mem_size + 1` |
| Semantics64.OmittedJumpTarget | assembler64.cpp:154-159 | for any A and B, with J left out, the J field of the word written holds `mem_size + 1` whenever that is below `MEM_WORDS` |
| Semantics64.JumpOperand | assembler64.cpp:44-59 | a J operand read into a word with an empty J field: a defined name or a hex address below `MEM_WORDS` is what the field holds, and an undefined name leaves it empty for the linker |
| Semantics64.GivenJump | assembler64.cpp:160-165 | for any operands, with J given: one word is written at `mem_size` and no other word changes, `mem_size` moves by one, labels and exports stay, J is read by `readField` into the A-and-B word (whose J field is empty), that word and those records are what the turn leaves, and the next token is read |
| Semantics64.TextSection | assembler64.cpp:137-166 | the text loop keeps `text_offset` |
| Semantics64.ParseKeeps | assembler64.cpp:117-166 | after the sections `text_offset` is at most `mem_size`, every hex or pending `(address, field)` lies in the text section below `mem_size`, and names are byte strings |
| Semantics64.Assemble | assembler64.cpp:117-196 | a whole run up to the output keeps that invariant |
| Semantics64.Resolve | assembler64.cpp:171-196 | resolution erases exactly the pending names that are defined and keeps the others with their lists |
| Semantics64.PatchAt | assembler64.cpp:180-193 | after one name's list, each word is its old value ORed with the name's address at every field recorded for that word |
| Semantics64.ResolveNamesAt | assembler64.cpp:171-196 | after the loop over names, each word is its old value ORed with every defined name's address at every field recorded for it |
| Semantics64.ResolveWordIs | assembler64.cpp:171-196 | the resolved word is the old word ORed with the fields of every defined name, in `std::map` order |
| Semantics64.ResolveFills | assembler64.cpp:180-192 | every `(address, field)` pending on a defined name lies in the text section, and afterwards that word has the name's address in that field and keeps every bit it had |
| Semantics64.ResolveKeepsOthers | assembler64.cpp:171-196 | a word with no field pending on a defined name is unchanged |
| Semantics64.PendingList | assembler64.cpp:225-243 | the pending table lists each name with its `(address, field)` list in insertion order |
| Semantics64.ObjectContents | assembler64.cpp:200-264 | the object file holds `text_offset`, `absolute` in insertion order, `mem[0..mem_size)`, exactly the exported names sorted with `symbols[exp]`, and exactly the unresolved names sorted with their lists |
| Semantics64.ObjectOfRoundTrip | assembler64.cpp:200-265 | the bytes written read back as that object, when no name holds a NUL and every table has fewer than 2^32 entries |
| Assembler64.Assembler.constructor | assembler64.cpp:34-42 | a fresh assembler has empty tables, `mem_size` 0 and whatever `mem` held when allocated |
| Assembler64.Assembler.ReadField | assembler64.cpp:44-59 | `readField` updates `absolute` and `references` and returns the instruction as `Semantics64.ReadField` says |
| Assembler64.Assembler.Write | assembler64.cpp:165 | a word is stored in the `mem` array as `Semantics64.Write` says |
| Assembler64.Assembler.ExportSection | assembler64.cpp:119-121 | the export loop fills `exported` as `Sections.ExportSection` says and touches nothing else |
| Assembler64.Assembler.DataEntry | assembler64.cpp:124-133 | one data entry, in place, as `Semantics64.DataEntry` says |
| Assembler64.Assembler.DataSection | assembler64.cpp:123-134 | the data loop, in place, as `Semantics64.DataSection` says |
| Assembler64.Assembler.Operands | assembler64.cpp:148-154 | reading A and B, in place, as `Semantics64.Operands` says |
| Assembler64.Assembler.TextStep | assembler64.cpp:138-165 | one turn of the text loop, in place, as `Semantics64.TextStep` says |
| Assembler64.Assembler.TextSection | assembler64.cpp:137-166 | the text loop, in place, as `Semantics64.TextSection` says |
| Assembler64.Assembler.Resolve | assembler64.cpp:171-196 | the resolution loop leaves `mem` and `references` as `Semantics64.Resolve` says |
| Assembler64.Assembler.Emit | assembler64.cpp:200-265 | the write block produces exactly the bytes of the object `Semantics64.ObjectOf` describes |
| Assembler64.Assembler.Parse | assembler64.cpp:117-166 | the sections, in place, with `text_offset` set to `mem_size` at `.text`, as `Semantics64.Parse` says |
| Assembler64.Assembler.Run | assembler64.cpp:115-265 | a whole run produces exactly the bytes `Semantics64.Output` gives, or the same error |
| Assembler64.ResolveSlots | assembler64.cpp:171-196 | the loop over `references` in key order ORs every defined name into its fields and leaves the pending table as `Semantics64.Resolve` says |
| Assembler64.VisitName | assembler64.cpp:173-195 | one name of that loop patches its fields and erases it exactly when it is defined |
| Assembler64.PatchSlots | assembler64.cpp:180-193 | the inner loop ORs the address into each recorded field, in list order |
| Assembler64.UnvisitedStep | assembler64.cpp:195 | visiting a defined name erases it from the pending table; an undefined one stays |
| Assembler64.WriteSlots | assembler64.cpp:250-258 | `(address, field)` pairs are written as two 4-byte integers each, in list order |
| Assembler64.WritePending | assembler64.cpp:221-243 | the pending-reference loop writes the count and each name with its NUL, its pair count and its pairs |

## Left out

- File I/O and the command line: the input file is a string parameter and
  the object file is the returned byte sequence. The argument check and
  usage message are not modelled.
- The word buffer comes from `new` without being cleared. Its initial
  contents are a parameter (`image`), so `.array` words and resolved words
  keep whatever was there.
- `f.write` of integers is taken to be little-endian.
- Numerals: `sscanf("%i")`, `sscanf("%lli")` and `stringstream >>` accept
  more than plain digits (signs, leading spaces, octal, trailing junk) and
  saturate or truncate out-of-range values. The model accepts only a
  non-empty string of decimal digits or `0x` followed by hex digits. Values
  must be below 2^32 in the 32-bit variants and for 64-bit operands; a
  64-bit data word must be below 2^63 in hex and below 2^64 in decimal. Any
  other token stops the run with `BadNumber`.
- Semantics32.ParseData: does not model what the C library returns for a
  malformed numeral; such a token stops the run with `BadNumber`.
- Semantics64.ReadField: a hex operand of 2^32 or more, which `sscanf`
  would cut, stops the run with `BadNumber`.
- Paths that never end in the original program stop with `Unterminated`
  instead: input ending before `.data` or `.text`, or inside a data entry or
  an `.iarray` line.
- A write at `MEM_WORDS` or past it is an out-of-bounds write in the
  original program. The model stops the run with `MemoryFull`.
- Semantics32.ArrayEntry: `.array N` only adds N to `mem_size`
  (main.cpp:171-173, assembler32.cpp:143), modulo 2^32. When that takes
  `mem_size` past `MEM_WORDS`, the original runs on: it overruns the buffer
  at the next `mem[mem_size++]`, or it reads past the buffer when the code is
  written out (main.cpp:290). The model stops the run with `MemoryFull` at
  the `.array` itself.
- `log2(double(MEM_WORDS))` is floating point. The model uses its value,
  13, as a constant.
- Semantics32.ObjectOfRoundTrip, Semantics64.ObjectOfRoundTrip: these hold
  only for names without NUL bytes and tables of fewer than 2^32 entries.
  The writer itself has no such limit, but a longer table's count would be
  written modulo 2^32.
- Semantics64.PackRecovers: this holds only for fields below `MEM_WORDS`.
  Semantics64.FieldOverflow shows what happens to a J of `MEM_WORDS` or more.
- There are no pseudo-instructions and no `$tmp` temporaries in these
  files. The linker and the virtual machine are not part of this model.
