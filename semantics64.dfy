/** What assembler64.cpp computes, one step at a time, as functions on
    values. An instruction is one 64-bit word holding its three operand
    addresses side by side, A in the top field, B in the middle one and J in
    the bottom one, each `ADDRESS_WIDTH` bits wide. Every operand records the
    word and the field it fills: a hex operand as an absolute address, an
    undefined name as a pending reference. The class in Assembler64 runs the
    same steps in place and is proved to agree with these functions. */
module Semantics64 {
  import opened Wrappers
  import opened Words
  import opened Bitwise
  import opened Lexer
  import opened Sections
  import opened Literals
  import opened Ordering
  import opened ObjectFile
  import opened Writer

  const TWO63: int := 0x8000_0000_0000_0000

  /** The globals of assembler64.cpp: `exported`, `symbols`, `references`
      (each name with its `(address, field)` list), `absolute`, `mem_size`,
      the `MEM_WORDS` words of `mem` and `text_offset`. */
  datatype Machine = Machine(
    exported: set<string>,
    symbols: map<string, u32>,
    references: map<string, seq<Slot>>,
    absolute: seq<Slot>,
    memSize: nat,
    mem: seq<u64>,
    textOffset: u32)

  /** The buffer has its fixed size and the cursor lies inside it. */
  predicate Shape(m: Machine) {
    |m.mem| == MEM_WORDS && m.memSize <= MEM_WORDS
  }

  /** The names the object file will hold are byte strings. */
  predicate ByteNames(m: Machine) {
    (forall n | n in m.references :: IsByteString(n)) &&
    (forall n | n in m.exported :: IsByteString(n))
  }

  /** The tables agree with a buffer whose words below `bound` are written:
      every recorded field lies in a word of the text section below `bound`. */
  ghost predicate Within(m: Machine, bound: nat) {
    Shape(m) && ByteNames(m) && m.textOffset <= m.memSize &&
    (forall i | 0 <= i < |m.absolute| :: m.textOffset <= m.absolute[i].0 < bound) &&
    (forall n, i | n in m.references && 0 <= i < |m.references[n]| ::
      m.textOffset <= m.references[n][i].0 < bound)
  }

  /** The invariant every step between two words keeps. */
  ghost predicate Inv(m: Machine) {
    Within(m, m.memSize)
  }

  function Initial(image: seq<u64>): Machine {
    Machine({}, map[], map[], [], 0, image, 0)
  }

  /** `references[name]`, empty for a name with no list yet. */
  function SlotsOf(refs: map<string, seq<Slot>>, name: string): seq<Slot> {
    if name in refs then refs[name] else []
  }

  // ---- field packing -------------------------------------------------------

  /** `1 << mult*ADDRESS_WIDTH`, with `mult` 2 for A, 1 for B and 0 for J and
      `ADDRESS_WIDTH` 13. */
  function Scale(f: Field): nat {
    match f
    case A => 0x400_0000
    case B => 0x2000
    case J => 1
  }

  /** `uword_t(address) << mult*ADDRESS_WIDTH`: an address widened to 64 bits,
      then moved into its field. */
  function Place(v: u32, f: Field): u64 {
    v * Scale(f)
  }

  /** `tmp << mult*ADDRESS_WIDTH` for a hex operand: `tmp` is an `address_t`,
      so the shift is done in 32 bits and what leaves them is lost. */
  function PlaceHex(v: u32, f: Field): u64 {
    (v * Scale(f)) % TWO32
  }

  /** The address a field holds: `ADDRESS_WIDTH` bits at the field's place. */
  function FieldValue(w: u64, f: Field): nat {
    (w / Scale(f)) % 0x2000
  }

  /** An instruction word built from three addresses. */
  function Pack(a: u32, b: u32, j: u32): u64 {
    Or(Or(Place(a, A), Place(b, B)), Place(j, J))
  }

  /** A word splits at a field boundary into what lies above and below it. */
  lemma SplitAt13(q: nat, r: nat)
    requires r < 0x2000
    ensures (q * 0x2000 + r) / 0x2000 == q && (q * 0x2000 + r) % 0x2000 == r
  {
  }

  lemma SplitAt26(q: nat, r: nat)
    requires r < 0x400_0000
    ensures (q * 0x400_0000 + r) / 0x400_0000 == q
  {
  }

  /** Three addresses below `MEM_WORDS` share no bit once packed. */
  lemma PackSum(a: u32, b: u32, j: u32)
    requires a < MEM_WORDS && b < MEM_WORDS && j < MEM_WORDS
    ensures Pack(a, b, j) == Place(a, A) + Place(b, B) + Place(j, J)
  {
    var pa, pb, pj := Place(a, A), Place(b, B), Place(j, J);
    var low := b * 0x2000 + j;
    Pow2Values();
    BitOrAssoc(pa, pb, pj);
    BitOrDisjoint(b, j, 13);
    assert Or(pb, pj) == low;
    BitOrDisjoint(a, low, 26);
    assert Or(pa, low) == pa + low;
  }

  /** Three addresses below `MEM_WORDS` share no bit once packed, and each
      comes back out of its field. */
  lemma PackRecovers(a: u32, b: u32, j: u32)
    requires a < MEM_WORDS && b < MEM_WORDS && j < MEM_WORDS
    ensures Pack(a, b, j) == Place(a, A) + Place(b, B) + Place(j, J)
    ensures FieldValue(Pack(a, b, j), A) == a
    ensures FieldValue(Pack(a, b, j), B) == b
    ensures FieldValue(Pack(a, b, j), J) == j
  {
    PackSum(a, b, j);
    var mid := a * 0x2000 + b;
    assert Pack(a, b, j) == mid * 0x2000 + j;
    SplitAt26(a, b * 0x2000 + j);
    SplitAt13(mid, j);
    SplitAt13(a, b);
    SplitAt13(0, a);
  }

  /** An address of `MEM_WORDS` or more spills into the next field up: a J
      of `MEM_WORDS + k` reads as J `k` and B 1. */
  lemma FieldOverflow(v: u32)
    requires MEM_WORDS <= v < 2 * MEM_WORDS
    ensures FieldValue(Place(v, J), J) == v - MEM_WORDS && FieldValue(Place(v, J), B) == 1
  {
  }

  /** A hex A operand keeps only its low 6 bits, a hex B operand its low 19
      bits, and a hex J operand all of its 32 bits. */
  lemma HexTruncation(v: u32)
    ensures PlaceHex(v, A) == Place(v % 64, A)
    ensures PlaceHex(v, B) == Place(v % 0x8_0000, B)
    ensures PlaceHex(v, J) == Place(v, J)
    ensures PlaceHex(v, A) == Place(v, A) <==> v < 64
    ensures PlaceHex(v, B) == Place(v, B) <==> v < 0x8_0000
  {
    var qa, ra := v / 64, v % 64;
    assert v * 0x400_0000 == qa * TWO32 + ra * 0x400_0000;
    var qb, rb := v / 0x8_0000, v % 0x8_0000;
    assert v * 0x2000 == qb * TWO32 + rb * 0x2000;
  }

  // ---- readField, the data words -----------------------------------------

  /** The value of a data word: `%lli` for hex, which stops at 2^63 - 1, and
      `uword_t` extraction for decimal. */
  function ParseWord(t: string): (r: Result<u64>)
    ensures r.Success? && IsHexToken(t) ==> ParseHex(t) == Some(r.value as nat) && r.value < TWO63
    ensures r.Success? && !IsHexToken(t) ==> ParseDecimal(t) == Some(r.value as nat)
    ensures r.Failure? ==> r.error == BadNumber(t)
  {
    match ParseNumber(t, TWO63, TWO64)
    case Some(v) => Success(v)
    case None => Failure(BadNumber(t))
  }

  /** The value of a hex operand: `%i` into an `address_t`. */
  function ParseAddress(t: string): (r: Result<u32>)
    requires IsHexToken(t)
    ensures r.Success? ==> ParseHex(t) == Some(r.value as nat)
    ensures r.Failure? <==> ParseHex(t).None? || ParseHex(t).value >= TWO32
    ensures r.Failure? ==> r.error == BadNumber(t)
  {
    match ParseNumber(t, TWO32, TWO32)
    case Some(v) => Success(v)
    case None => Failure(BadNumber(t))
  }

  /** What `readField` leaves behind: the tables and the instruction. */
  datatype FieldRead = FieldRead(m: Machine, instr: u64)

  /** `readField(instr, field)` with the operand token `t`, for the word at
      `mem_size`. A hex operand is shifted in 32 bits, ORed in and recorded as
      absolute. A defined name has its address ORed into the field and is
      recorded nowhere. An undefined name leaves the field empty and appends
      the word and field to the name's pending list. */
  function ReadField(m: Machine, t: string, f: Field, instr: u64): (r: Result<FieldRead>)
    requires m.memSize < TWO32
    ensures r.Failure? <==> IsHexToken(t) && ParseAddress(t).Failure?
    ensures r.Failure? ==> r.error == BadNumber(t)
    ensures r.Success? && IsHexToken(t) ==>
      r.value == FieldRead(m.(absolute := m.absolute + [(m.memSize as u32, f)]),
                           Or(instr, PlaceHex(ParseAddress(t).value, f)))
    ensures r.Success? && !IsHexToken(t) && t in m.symbols ==>
      r.value == FieldRead(m, Or(instr, Place(m.symbols[t], f)))
    ensures r.Success? && !IsHexToken(t) && t !in m.symbols ==>
      r.value == FieldRead(m.(references := m.references[t := SlotsOf(m.references, t) + [(m.memSize as u32, f)]]), instr)
  {
    var slot: Slot := (m.memSize as u32, f);
    if IsHexToken(t) then
      var v :- ParseAddress(t);
      Success(FieldRead(m.(absolute := m.absolute + [slot]), Or(instr, PlaceHex(v, f))))
    else if t in m.symbols then
      Success(FieldRead(m, Or(instr, Place(m.symbols[t], f))))
    else
      Success(FieldRead(m.(references := m.references[t := SlotsOf(m.references, t) + [slot]]), instr))
  }

  /** `mem[mem_size++] = w`. A write at `MEM_WORDS` overflows the buffer. */
  function Write(m: Machine, w: u64): (r: Result<Machine>)
    requires Shape(m)
    ensures r.Success? <==> m.memSize < MEM_WORDS
    ensures r.Success? ==>
      r.value == m.(mem := m.mem[m.memSize := w], memSize := m.memSize + 1) && Shape(r.value)
    ensures r.Failure? ==> r.error == MemoryFull
  {
    if m.memSize < MEM_WORDS then Success(m.(mem := m.mem[m.memSize := w], memSize := m.memSize + 1))
    else Failure(MemoryFull)
  }

  /** `symbols[name] = mem_size`. */
  function Bind(m: Machine, name: string): (r: Machine)
    requires Shape(m)
    ensures r.symbols == m.symbols[name := m.memSize as u32] && r.symbols[name] == m.memSize
    ensures r == m.(symbols := r.symbols)
  {
    m.(symbols := m.symbols[name := m.memSize as u32])
  }

  // ---- the sections -----------------------------------------------------

  /** One entry of the data section: a label, then one numeral. */
  function DataEntry(s: string, ls: LexState, m: Machine): (r: Result<(LexState, Machine)>)
    requires ls.pos <= |s| && ls.buf != "" && Shape(m)
    ensures r.Success? ==> r.value.0.pos <= |s| && Remaining(s, r.value.0) < Remaining(s, ls)
    ensures r.Success? ==> var m' := r.value.1; var t := Read(s, ls).buf;
      Shape(m') && m.memSize < MEM_WORDS && ParseWord(t).Success? &&
      m' == m.(symbols := m.symbols[Label(ls.buf) := m.memSize as u32],
               mem := m.mem[m.memSize := ParseWord(t).value], memSize := m.memSize + 1)
    ensures r.Failure? ==>
      r.error == (if Read(s, ls).buf == "" then Unterminated(".text")
                  else if ParseWord(Read(s, ls).buf).Failure? then BadNumber(Read(s, ls).buf)
                  else MemoryFull)
  {
    var m1 := Bind(m, Label(ls.buf));
    var ls1 := Read(s, ls);
    if ls1.buf == "" then Failure(Unterminated(".text"))
    else
      var v :- ParseWord(ls1.buf);
      var m2 :- Write(m1, v);
      Success((Read(s, ls1), m2))
  }

  /** The data section: entries up to `.text`. No field is recorded there. */
  function DataSection(s: string, ls: LexState, m: Machine): (r: Result<(LexState, Machine)>)
    requires ls.pos <= |s| && Shape(m)
    ensures r.Success? ==> r.value.0.pos <= |s| && r.value.0.buf == ".text" && Shape(r.value.1)
    ensures r.Success? ==> var m' := r.value.1;
      m.memSize <= m'.memSize && m' == m.(symbols := m'.symbols, mem := m'.mem, memSize := m'.memSize)
    decreases Remaining(s, ls)
  {
    if ls.buf == ".text" then Success((ls, m))
    else if ls.buf == "" then Failure(Unterminated(".text"))
    else
      var (ls1, m1) :- DataEntry(s, ls, m);
      DataSection(s, ls1, m1)
  }

  /** The J operand is left out when the token after B is on a new line or
      there is none. */
  predicate JumpOmitted(ls: LexState) {
    ls.tokenLine != ls.lastTokenLine || ls.buf == ""
  }

  /** The A and B operands of an instruction and the token after B. */
  function Operands(s: string, ls: LexState, m: Machine): (r: Result<(LexState, FieldRead)>)
    requires ls.pos <= |s| && ls.buf != "" && Shape(m)
    ensures r.Success? ==> r.value.0.pos <= |s| && Remaining(s, r.value.0) < Remaining(s, ls)
    ensures r.Success? ==> var m' := r.value.1.m;
      m' == m.(references := m'.references, absolute := m'.absolute) && Shape(m')
  {
    var a :- ReadField(m, ls.buf, A, 0);
    var ls1 := Read(s, ls);
    var b :- ReadField(a.m, ls1.buf, B, a.instr);
    Success((Read(s, ls1), b))
  }

  /** One turn of the text-section loop: a label, or one instruction. An
      omitted J makes the word jump to the next word, and the token read in
      its place is kept for the next turn. */
  function TextStep(s: string, ls: LexState, m: Machine): (r: Result<(LexState, Machine)>)
    requires ls.pos <= |s| && ls.buf != "" && Shape(m)
    ensures r.Success? ==> r.value.0.pos <= |s| && Remaining(s, r.value.0) < Remaining(s, ls)
    ensures r.Success? ==> Shape(r.value.1) && r.value.1.textOffset == m.textOffset
  {
    if ls.buf[|ls.buf| - 1] == ':' then
      var m1 := Bind(m, Label(ls.buf));
      var m2 := if ls.buf == "start:" then m1.(exported := m1.exported + {"start"}) else m1;
      Success((Read(s, ls), m2))
    else
      var (ls2, b) :- Operands(s, ls, m);
      if JumpOmitted(ls2) then
        var m1 :- Write(b.m, Or(b.instr, m.memSize + 1));
        Success((ls2, m1))
      else
        var j :- ReadField(b.m, ls2.buf, J, b.instr);
        var m1 :- Write(j.m, j.instr);
        Success((Read(s, ls2), m1))
  }

  /** The text section: turns until `readToken` returns nothing. */
  function TextSection(s: string, ls: LexState, m: Machine): (r: Result<Machine>)
    requires ls.pos <= |s| && Shape(m)
    ensures r.Success? ==> Shape(r.value) && r.value.textOffset == m.textOffset
    decreases Remaining(s, ls)
  {
    if ls.buf == "" then Success(m)
    else
      var (ls1, m1) :- TextStep(s, ls, m);
      TextSection(s, ls1, m1)
  }

  /** The three sections of `assembler64`, before resolution; `text_offset`
      is set to `mem_size` between the data and the text section. */
  ghost function Parse(s: string, image: seq<u64>): (r: Result<Machine>)
    requires |image| == MEM_WORDS
  {
    var ls0 := Read(s, Read(s, Start));
    var (ls1, exported) :- ExportSection(s, ls0, {});
    var (ls2, m2) :- DataSection(s, Read(s, ls1), Initial(image).(exported := exported));
    var m3 := m2.(textOffset := m2.memSize as u32);
    TextSection(s, Read(s, ls2), m3)
  }

  // ---- resolution -------------------------------------------------------

  /** Every recorded field lies in the buffer. */
  predicate InRange(slots: seq<Slot>) {
    forall i | 0 <= i < |slots| :: slots[i].0 < MEM_WORDS
  }

  /** The inner resolution loop: every `(address, field)` of one defined name,
      in list order, gets the name's address ORed into that field. */
  function Patch(mem: seq<u64>, slots: seq<Slot>, v: u32): (r: seq<u64>)
    requires |mem| == MEM_WORDS && InRange(slots)
    ensures |r| == MEM_WORDS
  {
    if slots == [] then mem
    else
      var p := Patch(mem, slots[..|slots| - 1], v);
      var (a, f) := slots[|slots| - 1];
      p[a := Or(p[a], Place(v, f))]
  }

  /** The bits `Patch` ORs into the word at `a`. */
  function FieldsAt(slots: seq<Slot>, a: nat, v: u32): u64 {
    if slots == [] then 0
    else
      var (b, f) := slots[|slots| - 1];
      Or(FieldsAt(slots[..|slots| - 1], a, v), if b == a then Place(v, f) else 0)
  }

  /** The names in `names` are in the table and their fields lie in the buffer. */
  ghost predicate Resolvable(m: Machine, names: seq<string>) {
    |m.mem| == MEM_WORDS &&
    (forall i | 0 <= i < |names| :: names[i] in m.references && InRange(m.references[names[i]]))
  }

  /** The outer resolution loop over `names`: a defined name has its pending
      fields patched, an undefined one is skipped. */
  ghost function ResolveNames(m: Machine, names: seq<string>): (r: seq<u64>)
    requires Resolvable(m, names)
    ensures |r| == MEM_WORDS
  {
    if names == [] then m.mem
    else
      var n := names[|names| - 1];
      var mem := ResolveNames(m, names[..|names| - 1]);
      if n in m.symbols then Patch(mem, m.references[n], m.symbols[n]) else mem
  }

  /** The bits the loop over `names` ORs into the word at `a`. */
  function BitsAt(m: Machine, names: seq<string>, a: nat): u64 {
    if names == [] then 0
    else
      var n := names[|names| - 1];
      Or(BitsAt(m, names[..|names| - 1], a),
         if n in m.symbols then FieldsAt(SlotsOf(m.references, n), a, m.symbols[n]) else 0)
  }

  /** The resolution loop in the order a `std::map` is visited. Defined names
      leave the table and undefined ones stay with their lists. */
  ghost function Resolve(m: Machine): (r: Machine)
    requires Inv(m)
    ensures Shape(r) && r == m.(mem := r.mem, references := r.references)
    ensures forall n :: n in r.references <==> n in m.references && n !in m.symbols
    ensures forall n | n in r.references :: r.references[n] == m.references[n]
  {
    SortedStringsSpec(m.references.Keys);
    m.(mem := ResolveNames(m, SortedStrings(m.references.Keys)),
       references := map n | n in m.references && n !in m.symbols :: m.references[n])
  }

  /** The whole run up to the object file. */
  ghost function Assemble(s: string, image: seq<u64>): (r: Result<Machine>)
    requires |image| == MEM_WORDS && IsByteString(s)
    ensures r.Success? ==> Inv(r.value)
  {
    ParseKeeps(s, image);
    var m :- Parse(s, image);
    Success(Resolve(m))
  }

  /** Patching ORs into the word at `a` exactly the fields recorded for it. */
  lemma {:induction false} PatchAt(mem: seq<u64>, slots: seq<Slot>, v: u32, a: nat)
    requires |mem| == MEM_WORDS && InRange(slots) && a < MEM_WORDS
    ensures Patch(mem, slots, v)[a] == Or(mem[a], FieldsAt(slots, a, v))
    decreases |slots|
  {
    if slots != [] {
      var init := slots[..|slots| - 1];
      var (b, f) := slots[|slots| - 1];
      PatchAt(mem, init, v, a);
      BitOrAssoc(mem[a], FieldsAt(init, a, v), if b == a then Place(v, f) else 0);
    }
  }

  /** The word at `a` after visiting `names` is its old value ORed with the
      fields recorded for it under the defined names among them. */
  lemma {:induction false} ResolveNamesAt(m: Machine, names: seq<string>, a: nat)
    requires Resolvable(m, names) && a < MEM_WORDS
    ensures ResolveNames(m, names)[a] == Or(m.mem[a], BitsAt(m, names, a))
    decreases |names|
  {
    if names != [] {
      var n := names[|names| - 1];
      var init := names[..|names| - 1];
      ResolveNamesAt(m, init, a);
      if n in m.symbols {
        var mem := ResolveNames(m, init);
        PatchAt(mem, m.references[n], m.symbols[n], a);
        BitOrAssoc(m.mem[a], BitsAt(m, init, a), FieldsAt(m.references[n], a, m.symbols[n]));
      }
    }
  }

  /** A recorded field is among the bits patched into its word. */
  lemma {:induction false} FieldsAtHas(slots: seq<Slot>, v: u32, i: nat)
    requires i < |slots|
    ensures Or(FieldsAt(slots, slots[i].0, v), Place(v, slots[i].1)) == FieldsAt(slots, slots[i].0, v)
    decreases |slots|
  {
    var a := slots[i].0;
    var init := slots[..|slots| - 1];
    var (b, f) := slots[|slots| - 1];
    var last := if b == a then Place(v, f) else 0;
    if i == |slots| - 1 {
      BitOrAbsorbs(FieldsAt(init, a, v), last);
    } else {
      FieldsAtHas(init, v, i);
      assert init[i] == slots[i];
      BitOrHasRight(FieldsAt(init, a, v), last, Place(v, slots[i].1));
    }
  }

  /** A word with no recorded field gets no bit. */
  lemma {:induction false} FieldsAtNone(slots: seq<Slot>, v: u32, a: nat)
    requires forall i | 0 <= i < |slots| :: slots[i].0 != a
    ensures FieldsAt(slots, a, v) == 0
    decreases |slots|
  {
    if slots != [] {
      FieldsAtNone(slots[..|slots| - 1], v, a);
    }
  }

  /** The bits for the `k`-th name are among those of the whole loop. */
  lemma {:induction false} BitsAtHas(m: Machine, names: seq<string>, k: nat, a: nat)
    requires k < |names| && names[k] in m.symbols
    ensures var n := names[k];
      Or(BitsAt(m, names, a), FieldsAt(SlotsOf(m.references, n), a, m.symbols[n])) == BitsAt(m, names, a)
    decreases |names|
  {
    var n := names[k];
    var init := names[..|names| - 1];
    var last := names[|names| - 1];
    var bits := if last in m.symbols then FieldsAt(SlotsOf(m.references, last), a, m.symbols[last]) else 0;
    var mine := FieldsAt(SlotsOf(m.references, n), a, m.symbols[n]);
    if k == |names| - 1 {
      BitOrAbsorbs(BitsAt(m, init, a), mine);
    } else {
      assert init[k] == n;
      BitsAtHas(m, init, k, a);
      BitOrHasRight(BitsAt(m, init, a), bits, mine);
    }
  }

  /** No bit goes to a word that no defined name among `names` waits on. */
  lemma {:induction false} BitsAtNone(m: Machine, names: seq<string>, a: nat)
    requires forall i, j | 0 <= i < |names| && names[i] in m.symbols && 0 <= j < |SlotsOf(m.references, names[i])| ::
      SlotsOf(m.references, names[i])[j].0 != a
    ensures BitsAt(m, names, a) == 0
    decreases |names|
  {
    if names != [] {
      var n := names[|names| - 1];
      BitsAtNone(m, names[..|names| - 1], a);
      if n in m.symbols {
        FieldsAtNone(SlotsOf(m.references, n), m.symbols[n], a);
      }
    }
  }

  /** Resolution ORs into each word exactly the fields recorded for it under
      a defined name. */
  lemma ResolveWordIs(m: Machine, a: nat)
    requires Inv(m) && a < MEM_WORDS
    ensures Resolve(m).mem[a] == Or(m.mem[a], BitsAt(m, SortedStrings(m.references.Keys), a))
  {
    SortedStringsSpec(m.references.Keys);
    ResolveNamesAt(m, SortedStrings(m.references.Keys), a);
  }

  /** Each `(address, field)` of a defined name gets the name's address ORed
      into that field of that word, and no bit the word had is cleared. */
  lemma ResolveFills(m: Machine, n: string, i: nat)
    requires Inv(m) && n in m.references && n in m.symbols && i < |m.references[n]|
    ensures var (a, f) := m.references[n][i];
      m.textOffset <= a < m.memSize && Or(Resolve(m).mem[a], Place(m.symbols[n], f)) == Resolve(m).mem[a]
    ensures var a := m.references[n][i].0;
      Or(Resolve(m).mem[a], m.mem[a]) == Resolve(m).mem[a]
  {
    var names := SortedStrings(m.references.Keys);
    SortedStringsSpec(m.references.Keys);
    var k :| 0 <= k < |names| && names[k] == n;
    var (a, f) := m.references[n][i];
    var v := m.symbols[n];
    var bits := BitsAt(m, names, a);
    var mine := FieldsAt(m.references[n], a, v);
    ResolveWordIs(m, a);
    FieldsAtHas(m.references[n], v, i);
    BitsAtHas(m, names, k, a);
    BitOrHasTrans(bits, mine, Place(v, f));
    BitOrHasLeft(m.mem[a], bits, Place(v, f));
    BitOrHasFirst(m.mem[a], bits);
  }

  /** A word no defined name waits on is left as it is. */
  lemma ResolveKeepsOthers(m: Machine, a: nat)
    requires Inv(m) && a < MEM_WORDS
    requires forall n, i | n in m.references && n in m.symbols && 0 <= i < |m.references[n]| ::
      m.references[n][i].0 != a
    ensures Resolve(m).mem[a] == m.mem[a]
  {
    var names := SortedStrings(m.references.Keys);
    SortedStringsSpec(m.references.Keys);
    ResolveWordIs(m, a);
    BitsAtNone(m, names, a);
  }

  // ---- what the steps keep ----------------------------------------------

  /** A field records only the word at `mem_size`, in the text section. */
  lemma ReadFieldKeeps(m: Machine, t: string, f: Field, instr: u64)
    requires Within(m, m.memSize + 1) && m.memSize < MEM_WORDS && IsByteString(t)
    ensures ReadField(m, t, f, instr).Success? ==>
      Within(ReadField(m, t, f, instr).value.m, m.memSize + 1) && ReadField(m, t, f, instr).value.m.memSize == m.memSize
  {
  }

  /** Writing a word past the recorded fields keeps the invariant. */
  lemma WithinWiden(m: Machine, m': Machine)
    requires Within(m, m.memSize + 1) && m.memSize < MEM_WORDS
    requires m' == m.(mem := m'.mem, memSize := m.memSize + 1) && |m'.mem| == MEM_WORDS
    ensures Inv(m')
  {
  }

  /** Both operands record only the word at `mem_size`. */
  lemma OperandsKeeps(s: string, ls: LexState, m: Machine)
    requires ls.pos <= |s| && ls.buf != "" && Inv(m) && m.memSize < MEM_WORDS
    requires IsByteString(s) && IsByteString(ls.buf)
    ensures Operands(s, ls, m).Success? ==>
      Within(Operands(s, ls, m).value.1.m, m.memSize + 1) && IsByteString(Operands(s, ls, m).value.0.buf)
  {
    var r := Operands(s, ls, m);
    if r.Success? {
      var a := ReadField(m, ls.buf, A, 0).value;
      ReadFieldKeeps(m, ls.buf, A, 0);
      var ls1 := Read(s, ls);
      ReadFieldKeeps(a.m, ls1.buf, B, a.instr);
    }
  }

  /** A label records no field. */
  lemma LabelKeeps(s: string, ls: LexState, m: Machine)
    requires ls.pos <= |s| && ls.buf != "" && ls.buf[|ls.buf| - 1] == ':' && Inv(m)
    requires IsByteString(s) && IsByteString(ls.buf)
    ensures TextStep(s, ls, m).Success? ==>
      Inv(TextStep(s, ls, m).value.1) && IsByteString(TextStep(s, ls, m).value.0.buf)
  {
    assert IsByteString("start");
  }

  /** An instruction records fields of the word it writes only. */
  lemma InstructionKeeps(s: string, ls: LexState, m: Machine)
    requires ls.pos <= |s| && ls.buf != "" && ls.buf[|ls.buf| - 1] != ':' && Inv(m)
    requires IsByteString(s) && IsByteString(ls.buf)
    ensures TextStep(s, ls, m).Success? ==>
      Inv(TextStep(s, ls, m).value.1) && IsByteString(TextStep(s, ls, m).value.0.buf)
  {
    var r := TextStep(s, ls, m);
    if r.Success? {
      var (ls2, b) := Operands(s, ls, m).value;
      OperandsKeeps(s, ls, m);
      if JumpOmitted(ls2) {
        WithinWiden(b.m, r.value.1);
      } else {
        var j := ReadField(b.m, ls2.buf, J, b.instr).value;
        ReadFieldKeeps(b.m, ls2.buf, J, b.instr);
        assert r.value.1 == Write(j.m, j.instr).value;
        WithinWiden(j.m, r.value.1);
      }
    }
  }

  lemma TextStepKeeps(s: string, ls: LexState, m: Machine)
    requires ls.pos <= |s| && ls.buf != "" && Inv(m) && IsByteString(s) && IsByteString(ls.buf)
    ensures TextStep(s, ls, m).Success? ==>
      Inv(TextStep(s, ls, m).value.1) && IsByteString(TextStep(s, ls, m).value.0.buf)
  {
    if ls.buf[|ls.buf| - 1] == ':' {
      LabelKeeps(s, ls, m);
    } else {
      InstructionKeeps(s, ls, m);
    }
  }

  lemma {:induction false} TextSectionKeeps(s: string, ls: LexState, m: Machine)
    requires ls.pos <= |s| && Inv(m) && IsByteString(s) && IsByteString(ls.buf)
    ensures TextSection(s, ls, m).Success? ==> Inv(TextSection(s, ls, m).value)
    decreases Remaining(s, ls)
  {
    if ls.buf != "" {
      TextStepKeeps(s, ls, m);
      var r := TextStep(s, ls, m);
      if r.Success? {
        TextSectionKeeps(s, r.value.0, r.value.1);
      }
    }
  }

  /** Every run that gets through the three sections leaves each recorded
      field in a word of the text section: at or after `text_offset` and
      before `mem_size`. */
  lemma ParseKeeps(s: string, image: seq<u64>)
    requires |image| == MEM_WORDS && IsByteString(s)
    ensures Parse(s, image).Success? ==> Inv(Parse(s, image).value)
  {
    var ls0 := Read(s, Read(s, Start));
    ExportSectionBytes(s, ls0, {});
    var e := ExportSection(s, ls0, {});
    if e.Success? {
      var (ls1, exported) := e.value;
      var m1 := Initial(image).(exported := exported);
      var dr := DataSection(s, Read(s, ls1), m1);
      if dr.Success? {
        var (ls2, m2) := dr.value;
        var m3 := m2.(textOffset := m2.memSize as u32);
        assert Inv(m3);
        TextSectionKeeps(s, Read(s, ls2), m3);
      }
    }
  }

  // ---- particular rules --------------------------------------------------

  /** A label in the text section binds the name to `mem_size`, writes no
      word and, for `start:`, exports `start`. */
  lemma TextLabel(s: string, ls: LexState, m: Machine)
    requires ls.pos <= |s| && ls.buf != "" && ls.buf[|ls.buf| - 1] == ':' && Shape(m)
    ensures var r := TextStep(s, ls, m);
      r.Success? && r.value.0 == Read(s, ls) &&
      r.value.1.memSize == m.memSize && r.value.1.mem == m.mem &&
      r.value.1.symbols == m.symbols[Label(ls.buf) := m.memSize as u32] &&
      r.value.1.references == m.references && r.value.1.absolute == m.absolute &&
      (forall n :: n in r.value.1.exported <==> n in m.exported || (ls.buf == "start:" && n == "start"))
  {
  }

  /** Two operands that are defined names fill their fields and record
      nothing. */
  lemma NamedOperands(s: string, ls: LexState, m: Machine)
    requires ls.pos <= |s| && ls.buf != "" && Shape(m) && m.memSize < MEM_WORDS
    requires !IsHexToken(ls.buf) && ls.buf in m.symbols
    requires var t := Read(s, ls).buf; !IsHexToken(t) && t in m.symbols
    ensures Operands(s, ls, m) == Success((Read(s, Read(s, ls)),
      FieldRead(m, Or(Place(m.symbols[ls.buf], A), Place(m.symbols[Read(s, ls).buf], B)))))
  {
    var a := m.symbols[ls.buf];
    assert Or(0, Place(a, A)) == Place(a, A);
  }

  /** An instruction whose operands are defined names and whose J is left
      out: J is `mem_size + 1`, the word is the three addresses packed, and
      the token read in place of J is kept for the next turn. */
  lemma OmittedJumpWord(s: string, ls: LexState, m: Machine)
    requires ls.pos <= |s| && ls.buf != "" && ls.buf[|ls.buf| - 1] != ':'
    requires Shape(m) && m.memSize < MEM_WORDS
    requires !IsHexToken(ls.buf) && ls.buf in m.symbols
    requires var t := Read(s, ls).buf; !IsHexToken(t) && t in m.symbols
    requires JumpOmitted(Read(s, Read(s, ls)))
    ensures var a, b := m.symbols[ls.buf], m.symbols[Read(s, ls).buf];
      TextStep(s, ls, m) == Success((Read(s, Read(s, ls)),
        m.(mem := m.mem[m.memSize := Pack(a, b, m.memSize + 1)], memSize := m.memSize + 1)))
  {
    NamedOperands(s, ls, m);
  }

  /** An instruction whose three operands are defined names on one line:
      the word is the three addresses packed and the token after J is read. */
  lemma GivenJumpWord(s: string, ls: LexState, m: Machine)
    requires ls.pos <= |s| && ls.buf != "" && ls.buf[|ls.buf| - 1] != ':'
    requires Shape(m) && m.memSize < MEM_WORDS
    requires !IsHexToken(ls.buf) && ls.buf in m.symbols
    requires var t := Read(s, ls).buf; !IsHexToken(t) && t in m.symbols
    requires var ls2 := Read(s, Read(s, ls));
      !JumpOmitted(ls2) && !IsHexToken(ls2.buf) && ls2.buf in m.symbols
    ensures var ls2 := Read(s, Read(s, ls));
      var a, b := m.symbols[ls.buf], m.symbols[Read(s, ls).buf];
      TextStep(s, ls, m) == Success((Read(s, ls2),
        m.(mem := m.mem[m.memSize := Pack(a, b, m.symbols[ls2.buf])], memSize := m.memSize + 1)))
  {
    NamedOperands(s, ls, m);
  }

  /** A field above J placed into a word leaves the J field empty: A and B
      start at bit 13, and a hex A or B loses to the 32-bit shift only bits
      above it. */
  lemma PlacedAboveJump(v: u32, f: Field)
    requires f != J
    ensures Place(v, f) % 0x2000 == 0 && PlaceHex(v, f) % 0x2000 == 0
  {
    HexTruncation(v);
    if f == A {
      assert Place(v, A) == (v * 0x2000) * 0x2000;
      assert Place(v % 64, A) == ((v % 64) * 0x2000) * 0x2000;
      SplitAt13(v * 0x2000, 0);
      SplitAt13((v % 64) * 0x2000, 0);
    } else {
      SplitAt13(v, 0);
      SplitAt13(v % 0x8_0000, 0);
    }
  }

  /** ORing two words with empty J fields leaves the J field empty. */
  lemma OrKeepsJumpEmpty(w: u64, x: u64)
    requires w % 0x2000 == 0 && x % 0x2000 == 0
    ensures Or(w, x) % 0x2000 == 0
  {
    Pow2Values();
    var qw, qx := w / 0x2000, x / 0x2000;
    assert w == qw * Pow2(13) && x == qx * Pow2(13);
    BitOrScaled(qw, qx, 13);
    SplitAt13(BitOr(qw, qx), 0);
  }

  /** Reading the A or B operand into a word with an empty J field leaves it
      empty. */
  lemma ReadFieldAboveJump(m: Machine, t: string, f: Field, instr: u64)
    requires m.memSize < TWO32 && f != J && instr % 0x2000 == 0
    ensures ReadField(m, t, f, instr).Success? ==> ReadField(m, t, f, instr).value.instr % 0x2000 == 0
  {
    if IsHexToken(t) && ParseAddress(t).Success? {
      PlacedAboveJump(ParseAddress(t).value, f);
      OrKeepsJumpEmpty(instr, PlaceHex(ParseAddress(t).value, f));
    } else if !IsHexToken(t) && t in m.symbols {
      PlacedAboveJump(m.symbols[t], f);
      OrKeepsJumpEmpty(instr, Place(m.symbols[t], f));
    }
  }

  /** Whatever the A and B operands are, the word they build has an empty J
      field. */
  lemma OperandsLeaveJumpEmpty(s: string, ls: LexState, m: Machine)
    requires ls.pos <= |s| && ls.buf != "" && Shape(m)
    ensures Operands(s, ls, m).Success? ==> FieldValue(Operands(s, ls, m).value.1.instr, J) == 0
  {
    ReadFieldAboveJump(m, ls.buf, A, 0);
    var a := ReadField(m, ls.buf, A, 0);
    if a.Success? {
      ReadFieldAboveJump(a.value.m, Read(s, ls).buf, B, a.value.instr);
    }
  }

  /** An address below `MEM_WORDS` ORed into an empty J field is what the
      field then holds. */
  lemma JumpFilled(w: u64, j: nat)
    requires FieldValue(w, J) == 0 && j < MEM_WORDS
    ensures FieldValue(Or(w, j), J) == j
  {
    Pow2Values();
    var q := w / 0x2000;
    SplitAt13(q, 0);
    BitOrDisjoint(q, j, 13);
    SplitAt13(q, j);
  }

  /** An instruction whose J is left out, whatever its A and B: one word is
      written at `mem_size` and nothing else in the buffer changes, the token
      read in place of J is kept, only A and B are recorded, and the word is
      theirs with `mem_size + 1` ORed in. */
  lemma OmittedJump(s: string, ls: LexState, m: Machine)
    requires ls.pos <= |s| && ls.buf != "" && ls.buf[|ls.buf| - 1] != ':' && Shape(m)
    ensures var r := TextStep(s, ls, m);
      r.Success? && Operands(s, ls, m).Success? && JumpOmitted(Operands(s, ls, m).value.0) ==>
      var (ls2, b) := Operands(s, ls, m).value;
      m.memSize < MEM_WORDS && r.value.1.memSize == m.memSize + 1 &&
      r.value.1.mem == m.mem[m.memSize := r.value.1.mem[m.memSize]] &&
      r.value.1.symbols == m.symbols && r.value.1.exported == m.exported &&
      r.value.0 == ls2 && r.value.1.references == b.m.references && r.value.1.absolute == b.m.absolute &&
      r.value.1.mem[m.memSize] == Or(b.instr, m.memSize + 1)
  {
    var ops := Operands(s, ls, m);
    if ops.Success? && JumpOmitted(ops.value.0) {
      var (ls2, b) := ops.value;
      var w := Write(b.m, Or(b.instr, m.memSize + 1));
      assert TextStep(s, ls, m) == if w.Success? then Success((ls2, w.value)) else Failure(w.error);
    }
  }

  /** With J left out, the J field of the word written holds `mem_size + 1`
      whenever that fits in the field, whatever A and B are. */
  lemma OmittedJumpTarget(s: string, ls: LexState, m: Machine)
    requires ls.pos <= |s| && ls.buf != "" && ls.buf[|ls.buf| - 1] != ':' && Shape(m)
    ensures var r := TextStep(s, ls, m);
      r.Success? && Operands(s, ls, m).Success? && JumpOmitted(Operands(s, ls, m).value.0) &&
      m.memSize + 1 < MEM_WORDS ==>
      FieldValue(r.value.1.mem[m.memSize], J) == m.memSize + 1
  {
    var r := TextStep(s, ls, m);
    if r.Success? && Operands(s, ls, m).Success? && JumpOmitted(Operands(s, ls, m).value.0) && m.memSize + 1 < MEM_WORDS {
      OmittedJump(s, ls, m);
      OperandsLeaveJumpEmpty(s, ls, m);
      JumpFilled(Operands(s, ls, m).value.1.instr, m.memSize + 1);
    }
  }

  /** The J operand read into a word whose J field is empty: a defined name
      or a hex address below `MEM_WORDS` is what the field then holds, and an
      undefined name leaves it empty for the linker. */
  lemma JumpOperand(m: Machine, t: string, instr: u64)
    requires m.memSize < TWO32 && FieldValue(instr, J) == 0
    ensures var j := ReadField(m, t, J, instr); j.Success? ==>
      (IsHexToken(t) && ParseAddress(t).value < MEM_WORDS ==> FieldValue(j.value.instr, J) == ParseAddress(t).value) &&
      (!IsHexToken(t) && t in m.symbols && m.symbols[t] < MEM_WORDS ==> FieldValue(j.value.instr, J) == m.symbols[t]) &&
      (!IsHexToken(t) && t !in m.symbols ==> FieldValue(j.value.instr, J) == 0)
  {
    if IsHexToken(t) && ParseAddress(t).Success? && ParseAddress(t).value < MEM_WORDS {
      HexTruncation(ParseAddress(t).value);
      JumpFilled(instr, ParseAddress(t).value);
    } else if !IsHexToken(t) && t in m.symbols && m.symbols[t] < MEM_WORDS {
      JumpFilled(instr, m.symbols[t]);
    }
  }

  /** An instruction whose J is given, whatever its operands: one word is
      written at `mem_size` and nothing else in the buffer changes; J is read
      as `readField` reads it into the word A and B built, whose J field is
      empty, that word is what is written, and the token after J is read.
      What the J field then holds is stated by JumpOperand. */
  lemma GivenJump(s: string, ls: LexState, m: Machine)
    requires ls.pos <= |s| && ls.buf != "" && ls.buf[|ls.buf| - 1] != ':' && Shape(m)
    ensures var r := TextStep(s, ls, m);
      r.Success? && Operands(s, ls, m).Success? && !JumpOmitted(Operands(s, ls, m).value.0) ==>
      var (ls2, b) := Operands(s, ls, m).value;
      var j := ReadField(b.m, ls2.buf, J, b.instr);
      m.memSize < MEM_WORDS && r.value.1.memSize == m.memSize + 1 &&
      r.value.1.mem == m.mem[m.memSize := r.value.1.mem[m.memSize]] &&
      r.value.1.symbols == m.symbols && r.value.1.exported == m.exported &&
      FieldValue(b.instr, J) == 0 && j.Success? && r.value.0 == Read(s, ls2) &&
      r.value.1.references == j.value.m.references && r.value.1.absolute == j.value.m.absolute &&
      r.value.1.mem[m.memSize] == j.value.instr
  {
    var ops := Operands(s, ls, m);
    if ops.Success? && !JumpOmitted(ops.value.0) {
      var (ls2, b) := ops.value;
      OperandsLeaveJumpEmpty(s, ls, m);
      var j := ReadField(b.m, ls2.buf, J, b.instr);
      if j.Success? {
        var w := Write(j.value.m, j.value.instr);
        assert TextStep(s, ls, m) == if w.Success? then Success((Read(s, ls2), w.value)) else Failure(w.error);
      }
    }
  }

  /** One instruction of the text section, whatever its operands: it fails
      as its A and B operands fail and when the buffer is full, and a step
      that succeeds is one of the two above. */
  lemma InstructionStep(s: string, ls: LexState, m: Machine)
    requires ls.pos <= |s| && ls.buf != "" && ls.buf[|ls.buf| - 1] != ':' && Shape(m)
    ensures Operands(s, ls, m).Failure? ==> TextStep(s, ls, m) == Failure(Operands(s, ls, m).error)
    ensures m.memSize == MEM_WORDS ==> TextStep(s, ls, m).Failure?
    ensures TextStep(s, ls, m).Success? ==> Operands(s, ls, m).Success?
  {
  }

  // ---- the object file ---------------------------------------------------

  /** The pending names with their `(address, field)` lists in the order
      they were recorded. */
  function PendingList(m: Machine, names: seq<string>): (ps: seq<(string, seq<Slot>)>)
    ensures |ps| == |names|
    ensures forall i | 0 <= i < |names| :: ps[i] == (names[i], SlotsOf(m.references, names[i]))
  {
    seq(|names|, i requires 0 <= i < |names| => (names[i], SlotsOf(m.references, names[i])))
  }

  lemma PendingListAppend(m: Machine, names: seq<string>, name: string)
    ensures PendingList(m, names + [name]) == PendingList(m, names) + [(name, SlotsOf(m.references, name))]
  {
  }

  /** The bytes the pending loop writes for `names`. */
  function PendingEntries(m: Machine, names: seq<string>): seq<u8>
    requires forall i | 0 <= i < |names| :: IsByteString(names[i])
  {
    Pending64(PendingList(m, names))
  }

  /** Writing one more pending name appends the name, its NUL, the length
      of its list and the list's pairs. */
  lemma PendingEntriesStep(m: Machine, names: seq<string>, i: nat)
    requires forall j | 0 <= j < |names| :: IsByteString(names[j])
    requires i < |names|
    ensures PendingEntries(m, names[..i + 1]) ==
      PendingEntries(m, names[..i]) +
      (CString(names[i]) + Le32(Wrap32(|SlotsOf(m.references, names[i])|)) + Slots(SlotsOf(m.references, names[i])))
  {
    assert names[..i + 1] == names[..i] + [names[i]];
    PendingListAppend(m, names[..i], names[i]);
    Pending64Append(PendingList(m, names[..i]), (names[i], SlotsOf(m.references, names[i])));
  }

  /** What the write block puts in the object file, in the order of
      `std::set` / `std::map` iteration. */
  ghost function ObjectOf(m: Machine): Object64
    requires Shape(m)
  {
    Object64(
      m.textOffset,
      ExportList(m.symbols, SortedStrings(m.exported)),
      PendingList(m, SortedStrings(m.references.Keys)),
      m.absolute,
      m.mem[..m.memSize])
  }

  /** The object file starts with `text_offset` and lists the exported
      names once each in increasing order with their addresses, the pending
      names once each in increasing order with their lists as recorded, the
      absolute fields as recorded, and the words written. */
  lemma ObjectContents(m: Machine)
    requires Shape(m)
    ensures var o := ObjectOf(m);
      o.textOffset == m.textOffset && o.absolute == m.absolute && o.code == m.mem[..m.memSize]
    ensures var es := ObjectOf(m).exports;
      StrictlySortedStrings(Names(es)) && (forall n :: n in Names(es) <==> n in m.exported) &&
      (forall i | 0 <= i < |es| :: es[i].1 == Lookup(m.symbols, es[i].0))
    ensures var ps := ObjectOf(m).pending;
      StrictlySortedStrings(Names(ps)) && (forall n :: n in Names(ps) <==> n in m.references) &&
      (forall i | 0 <= i < |ps| :: ps[i].0 in m.references && ps[i].1 == m.references[ps[i].0])
  {
    var ps := ObjectOf(m).pending;
    SortedStringsSpec(m.exported);
    SortedStringsSpec(m.references.Keys);
    assert Names(ObjectOf(m).exports) == SortedStrings(m.exported);
    assert Names(ps) == SortedStrings(m.references.Keys);
    forall i | 0 <= i < |ps|
      ensures ps[i].0 in m.references
    {
      assert ps[i].0 == Names(ps)[i];
    }
  }

  /** Every name the writer meets is a byte string. */
  lemma ObjectOfWritable(m: Machine)
    requires Shape(m) && ByteNames(m)
    ensures Writable64(ObjectOf(m))
  {
    SortedStringsSpec(m.exported);
    SortedStringsSpec(m.references.Keys);
    AllByteStrings(SortedStrings(m.exported), m.exported);
    AllByteStrings(SortedStrings(m.references.Keys), m.references.Keys);
  }

  /** The bytes of the object file. */
  ghost function ObjectBytes(m: Machine): seq<u8>
    requires Shape(m) && ByteNames(m)
  {
    ObjectOfWritable(m);
    Encode64(ObjectOf(m))
  }

  /** The pending-reference block of the object file. */
  ghost function PendingPart(m: Machine): seq<u8>
    requires Shape(m) && ByteNames(m)
  {
    ObjectOfWritable(m);
    Pending64Block(ObjectOf(m).pending)
  }

  /** The pending block is the count followed by the entries in visit order. */
  lemma PendingPartIs(m: Machine, names: seq<string>)
    requires Shape(m) && ByteNames(m) && names == SortedStrings(m.references.Keys)
    requires forall i | 0 <= i < |names| :: IsByteString(names[i])
    ensures PendingPart(m) == Le32(Wrap32(|m.references|)) + PendingEntries(m, names)
  {
    ObjectOfWritable(m);
    SortedStringsSpec(m.references.Keys);
    assert ObjectOf(m).pending == PendingList(m, names);
  }

  /** The object file a run writes, or why it writes none. */
  ghost function Output(s: string, image: seq<u64>): Result<seq<u8>>
    requires |image| == MEM_WORDS && IsByteString(s)
  {
    var m :- Assemble(s, image);
    Success(ObjectBytes(m))
  }

  /** The object file written for a run that keeps the invariant reads back
      as the same tables and code, provided no name holds a NUL and every
      list has fewer than 2^32 entries. */
  lemma ObjectOfRoundTrip(m: Machine)
    requires Inv(m) && |m.exported| < TWO32 && |m.references| < TWO32 && |m.absolute| < TWO32
    requires forall n | n in m.exported :: NulFree(n)
    requires forall n | n in m.references :: NulFree(n) && |m.references[n]| < TWO32
    ensures Decode64(ObjectBytes(m)) == Some(ObjectOf(m))
  {
    var o := ObjectOf(m);
    ObjectOfWritable(m);
    ObjectContents(m);
    SortedStringsSpec(m.exported);
    SortedStringsSpec(m.references.Keys);
    forall i | 0 <= i < |o.pending|
      ensures |o.pending[i].1| < TWO32 && NulFree(o.pending[i].0)
    {
      assert o.pending[i].0 in Names(o.pending);
    }
    forall i | 0 <= i < |o.exports|
      ensures NulFree(o.exports[i].0)
    {
      assert o.exports[i].0 in Names(o.exports);
    }
    Decode64Encode64(o);
  }
}
