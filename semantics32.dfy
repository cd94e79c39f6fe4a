/** What main.cpp and assembler32.cpp compute, one step at a time, as
    functions on values: the assembler's tables and word buffer (Machine)
    and the tokenizer's state (LexState). The class in Assembler32 runs the
    same steps in place and is proved to agree with these functions; the
    lemmas here state what the steps promise. The two files differ only in
    the `.ptr` entry of the data section (Dialect). */
module Semantics32 {
  import opened Wrappers
  import opened Words
  import opened Lexer
  import opened Sections
  import opened Literals
  import opened Ordering
  import opened ObjectFile
  import opened Writer

  /** main.cpp reads the `.ptr` target before parsing it; assembler32.cpp
      parses the token already in `buf`, which is `.ptr` itself. */
  datatype Dialect = MainCpp | Asm32

  /** The globals `exported`, `symbols`, `references`, `relatives`,
      `mem_size` and the `MEM_WORDS` words of `mem`. */
  datatype Machine = Machine(
    exported: set<string>,
    symbols: map<string, u32>,
    references: map<string, set<u32>>,
    relatives: set<u32>,
    memSize: nat,
    mem: seq<u32>)

  /** The buffer has its fixed size and the cursor lies inside it. */
  predicate Shape(m: Machine) {
    |m.mem| == MEM_WORDS && m.memSize <= MEM_WORDS
  }

  /** The tables agree with a buffer whose words below `bound` are written:
      recorded addresses lie below it, every pending address is also a
      relocation, no address is pending for two names, labels point at most
      one past the written words, and every name is a byte string. */
  ghost predicate Within(m: Machine, bound: nat) {
    Shape(m) && ByteNames(m) &&
    (forall a | a in m.relatives :: a < bound) &&
    (forall n | n in m.references :: m.references[n] != {} && m.references[n] <= m.relatives) &&
    (forall n, k, a | n in m.references && k in m.references && a in m.references[n] && a in m.references[k] :: n == k) &&
    (forall n | n in m.symbols :: m.symbols[n] <= m.memSize)
  }

  /** The names the object file will hold are byte strings. */
  predicate ByteNames(m: Machine) {
    (forall n | n in m.references :: IsByteString(n)) &&
    (forall n | n in m.exported :: IsByteString(n))
  }

  /** The invariant every step between two words keeps. */
  ghost predicate Inv(m: Machine) {
    Within(m, m.memSize)
  }

  function Initial(image: seq<u32>): Machine {
    Machine({}, map[], map[], {}, 0, image)
  }

  function RefsOf(refs: map<string, set<u32>>, name: string): set<u32> {
    if name in refs then refs[name] else {}
  }

  // ---- parseData, parseField ---------------------------------------------

  /** `parseData`: the value of a numeral token as a `uword_t`. */
  function ParseData(t: string): (r: Result<u32>)
    ensures r.Success? ==> (if IsHexToken(t) then ParseHex(t) else ParseDecimal(t)) == Some(r.value)
    ensures r.Failure? ==> r.error == BadNumber(t)
  {
    match ParseNumber(t, TWO32, TWO32)
    case Some(v) => Success(v)
    case None => Failure(BadNumber(t))
  }

  /** `buf.find("+")`, or `|t|` when there is none. */
  function PlusIndex(t: string): (k: nat)
    ensures k <= |t| && (forall i | 0 <= i < k :: t[i] != '+') && (k < |t| ==> t[k] == '+')
  {
    if t == [] || t[0] == '+' then 0 else 1 + PlusIndex(t[1..])
  }

  /** Splits `name+offset` at its first `+`. */
  function SplitOffset(t: string): (r: (string, Option<string>))
    ensures '+' !in r.0
    ensures r.1.None? ==> r.0 == t
    ensures r.1.Some? ==> t == r.0 + "+" + r.1.value
  {
    var k := PlusIndex(t);
    if k == |t| then (t, None)
    else
      assert t == t[..k] + "+" + t[k + 1..];
      (t[..k], Some(t[k + 1..]))
  }

  /** The `+N` offset read by the `stringstream`: 0 when there is no `+`. */
  function OffsetValue(offset: Option<string>): (r: Result<u32>)
    ensures offset.None? ==> r == Success(0)
    ensures offset.Some? && r.Success? ==> ParseDecimal(offset.value) == Some(r.value)
  {
    match offset
    case None => Success(0)
    case Some(o) =>
      match ParseDecimal(o)
      case Some(v) => if v < TWO32 then Success(v) else Failure(BadNumber(o))
      case None => Failure(BadNumber(o))
  }

  /** What `parseField` leaves behind: the tables, the field value and `buf`,
      which it cuts at the `+`. */
  datatype FieldRead = FieldRead(m: Machine, value: u32, buf: string)

  /** `parseField` for the word at `mem_size`. A hex token is an absolute
      value and is recorded nowhere. A symbol always makes the word a
      relocation; a defined symbol gives its address and any `+N` is
      dropped; an undefined one leaves a pending reference and gives N. */
  function ParseField(m: Machine, t: string): (r: Result<FieldRead>)
    requires m.memSize < TWO32
    ensures r.Failure? <==>
      if IsHexToken(t) then ParseData(t).Failure?
      else SplitOffset(t).0 !in m.symbols && OffsetValue(SplitOffset(t).1).Failure?
    ensures r.Success? && IsHexToken(t) ==>
      r.value == FieldRead(m, r.value.value, t) && ParseHex(t) == Some(r.value.value)
    ensures r.Success? && !IsHexToken(t) ==>
      var (name, offset) := SplitOffset(t);
      var f := r.value;
      f.buf == name && f.m.relatives == m.relatives + {m.memSize as u32} &&
      f.m.symbols == m.symbols && f.m.exported == m.exported &&
      f.m.memSize == m.memSize && f.m.mem == m.mem &&
      (name in m.symbols ==> f.value == m.symbols[name] && f.m.references == m.references) &&
      (name !in m.symbols ==>
        OffsetValue(offset) == Success(f.value) &&
        f.m.references == m.references[name := RefsOf(m.references, name) + {m.memSize as u32}])
  {
    if IsHexToken(t) then
      var v :- ParseData(t);
      Success(FieldRead(m, v, t))
    else
      var addr: u32 := m.memSize;
      var (name, offset) := SplitOffset(t);
      var m1 := m.(relatives := m.relatives + {addr});
      if name in m.symbols then Success(FieldRead(m1, m.symbols[name], name))
      else
        var n :- OffsetValue(offset);
        Success(FieldRead(m1.(references := m.references[name := RefsOf(m.references, name) + {addr}]), n, name))
  }

  /** `mem[mem_size++] = v`. A write at `MEM_WORDS` overflows the buffer. */
  function Write(m: Machine, v: u32): (r: Result<Machine>)
    requires Shape(m)
    ensures r.Success? <==> m.memSize < MEM_WORDS
    ensures r.Success? ==>
      r.value == m.(mem := m.mem[m.memSize := v], memSize := m.memSize + 1) && Shape(r.value)
    ensures r.Failure? ==> r.error == MemoryFull
  {
    if m.memSize < MEM_WORDS then Success(m.(mem := m.mem[m.memSize := v], memSize := m.memSize + 1))
    else Failure(MemoryFull)
  }

  /** `symbols[name] = mem_size`. */
  function Bind(m: Machine, name: string): (r: Machine)
    requires Shape(m)
    ensures r.symbols == m.symbols[name := m.memSize as u32] && r.symbols[name] == m.memSize
    ensures r == m.(symbols := r.symbols)
  {
    m.(symbols := m.symbols[name := m.memSize as u32])
  }

  // ---- the sections -----------------------------------------------------

  /** The tokens an `.iarray` takes as its values: those from `ls` on that
      each lie on the line of the token before them. */
  ghost function IArrayTokens(s: string, ls: LexState): seq<string>
    requires ls.pos <= |s|
    decreases Remaining(s, ls)
  {
    if ls.tokenLine != ls.lastTokenLine || ls.buf == "" then []
    else [ls.buf] + IArrayTokens(s, Read(s, ls))
  }

  /** The values of an `.iarray`: one word per token while each token is on
      the line of the token before it. End of input on that line would make the original loop forever. */
  function IArray(s: string, ls: LexState, m: Machine): (r: Result<(LexState, Machine)>)
    requires ls.pos <= |s| && Shape(m)
    ensures r.Success? ==> r.value.0.pos <= |s| && Remaining(s, r.value.0) <= Remaining(s, ls)
    ensures r.Success? ==> r.value.0.tokenLine != r.value.0.lastTokenLine
    ensures r.Success? ==> var m' := r.value.1;
      Shape(m') && m.memSize <= m'.memSize && m' == m.(mem := m'.mem, memSize := m'.memSize) &&
      m'.mem[..m.memSize] == m.mem[..m.memSize] && m'.mem[m'.memSize..] == m.mem[m'.memSize..]
    decreases Remaining(s, ls)
  {
    if ls.tokenLine != ls.lastTokenLine then Success((ls, m))
    else if ls.buf == "" then Failure(Unterminated(".text"))
    else
      var v :- ParseData(ls.buf);
      var m1 :- Write(m, v);
      var r := IArray(s, Read(s, ls), m1);
      if r.Failure? then r
      else
        SlicesKept(m.mem, m1.mem, r.value.1.mem, m.memSize, m1.memSize, r.value.1.memSize);
        r
  }

  /** An `.iarray` writes one word per token it takes, each the value its
      token parses to, in order from `mem_size` on. */
  lemma {:induction false} IArrayWords(s: string, ls: LexState, m: Machine, ls': LexState, m': Machine)
    requires ls.pos <= |s| && Shape(m)
    requires IArray(s, ls, m) == Success((ls', m'))
    ensures var ts := IArrayTokens(s, ls);
      |ts| == m'.memSize - m.memSize &&
      forall i | 0 <= i < |ts| :: m.memSize + i < |m'.mem| && ParseData(ts[i]) == Success(m'.mem[m.memSize + i])
    decreases Remaining(s, ls)
  {
    if ls.tokenLine != ls.lastTokenLine {
      assert IArrayTokens(s, ls) == [];
    } else {
      var v := ParseData(ls.buf).value;
      var m1 := Write(m, v).value;
      var ls1 := Read(s, ls);
      assert IArray(s, ls1, m1) == Success((ls', m'));
      assert IArrayTokens(s, ls) == [ls.buf] + IArrayTokens(s, ls1);
      IArrayWords(s, ls1, m1, ls', m');
      assert m'.mem[m.memSize] == v by {
        assert m'.mem[m.memSize] == m'.mem[..m1.memSize][m.memSize];
      }
      IArrayValues(ls.buf, IArrayTokens(s, ls1), m'.mem, m.memSize, v);
    }
  }

  /** The values of the rest of an `.iarray`, after the word of its first
      token, are the values of the whole. */
  lemma IArrayValues(t: string, ts: seq<string>, mem: seq<u32>, base: nat, v: u32)
    requires base < |mem| && ParseData(t) == Success(v) && mem[base] == v
    requires forall i | 0 <= i < |ts| :: base + 1 + i < |mem| && ParseData(ts[i]) == Success(mem[base + 1 + i])
    ensures forall i | 0 <= i < |[t] + ts| :: base + i < |mem| && ParseData(([t] + ts)[i]) == Success(mem[base + i])
  {
    forall i | 0 <= i < |[t] + ts|
      ensures base + i < |mem| && ParseData(([t] + ts)[i]) == Success(mem[base + i])
    {
      if i > 0 {
        assert ([t] + ts)[i] == ts[i - 1];
      }
    }
  }

  /** Words kept below `i` and from `j` on, then below `j` and from `k` on,
      are kept below `i` and from `k` on. */
  lemma SlicesKept(a: seq<u32>, b: seq<u32>, c: seq<u32>, i: nat, j: nat, k: nat)
    requires |a| == |b| == |c| && i <= j <= k <= |a|
    requires b[..i] == a[..i] && b[j..] == a[j..]
    requires c[..j] == b[..j] && c[k..] == b[k..]
    ensures c[..i] == a[..i] && c[k..] == a[k..]
  {
    assert c[..i] == c[..j][..i];
    assert b[..i] == b[..j][..i];
    assert b[k..] == b[j..][k - j..];
    assert a[k..] == a[j..][k - j..];
  }

  /** One entry of the data section, its label in `buf`. */
  function DataEntry(d: Dialect, s: string, ls: LexState, m: Machine): (r: Result<(LexState, Machine)>)
    requires ls.pos <= |s| && ls.buf != "" && Shape(m)
    ensures r.Success? ==> r.value.0.pos <= |s| && Remaining(s, r.value.0) < Remaining(s, ls)
    ensures r.Success? ==> Shape(r.value.1) && r.value.1.symbols == m.symbols[Label(ls.buf) := m.memSize as u32]
    ensures r.Success? ==> m.memSize <= r.value.1.memSize && r.value.1.exported == m.exported
  {
    var m1 := Bind(m, Label(ls.buf));
    var ls1 := Read(s, ls);
    if ls1.buf == "" then Failure(Unterminated(".text"))
    else if ls1.buf == ".array" then ArrayEntry(s, ls1, m1)
    else if ls1.buf == ".iarray" then IArray(s, Read(s, ls1), m1)
    else if ls1.buf == ".ptr" then PtrEntry(d, s, ls1, m1)
    else WordEntry(s, ls1, m1)
  }

  /** `.array N`: N words reserved and left as they are. */
  function ArrayEntry(s: string, ls: LexState, m: Machine): (r: Result<(LexState, Machine)>)
    requires ls.pos <= |s| && ls.buf != "" && Shape(m)
    ensures r.Success? ==> r.value.0.pos <= |s| && Remaining(s, r.value.0) < Remaining(s, ls)
    ensures r.Success? ==> var m' := r.value.1;
      m' == m.(memSize := m'.memSize) && Shape(m') && m.memSize <= m'.memSize &&
      ParseData(Read(s, ls).buf) == Success(m'.memSize - m.memSize)
  {
    var ls1 := Read(s, ls);
    if ls1.buf == "" then Failure(Unterminated(".text"))
    else
    var n :- ParseData(ls1.buf);
    if m.memSize + n > MEM_WORDS then Failure(MemoryFull)
    else Success((Read(s, ls1), m.(memSize := m.memSize + n)))
  }

  /** `.ptr`: one word holding an operand, which main.cpp reads from the
      next token and assembler32.cpp from the `.ptr` token itself. */
  function PtrEntry(d: Dialect, s: string, ls: LexState, m: Machine): (r: Result<(LexState, Machine)>)
    requires ls.pos <= |s| && ls.buf != "" && Shape(m)
    ensures r.Success? ==> r.value.0.pos <= |s| && Remaining(s, r.value.0) < Remaining(s, ls)
    ensures r.Success? ==> Shape(r.value.1) && r.value.1.memSize == m.memSize + 1
    ensures r.Success? ==> r.value.1.symbols == m.symbols && r.value.1.exported == m.exported
  {
    var ls1 := if d == MainCpp then Read(s, ls) else ls;
    if ls1.buf == "" then Failure(Unterminated(".text"))
    else
    var f :- ParseField(m, ls1.buf);
    var m1 :- Write(f.m, f.value);
    Success((Read(s, ls1.(buf := f.buf)), m1))
  }

  /** A plain initialised word. */
  function WordEntry(s: string, ls: LexState, m: Machine): (r: Result<(LexState, Machine)>)
    requires ls.pos <= |s| && Shape(m)
    ensures r.Success? ==> r.value.0.pos <= |s| && Remaining(s, r.value.0) < Remaining(s, ls)
    ensures r.Success? ==> Shape(r.value.1) && r.value.1 == m.(mem := r.value.1.mem, memSize := m.memSize + 1)
    ensures r.Success? ==> ParseData(ls.buf) == Success(r.value.1.mem[m.memSize])
  {
    var v :- ParseData(ls.buf);
    var m1 :- Write(m, v);
    Success((Read(s, ls), m1))
  }

  /** The data section: entries up to `.text`. */
  function DataSection(d: Dialect, s: string, ls: LexState, m: Machine): (r: Result<(LexState, Machine)>)
    requires ls.pos <= |s| && Shape(m)
    ensures r.Success? ==> r.value.0.pos <= |s| && r.value.0.buf == ".text" && Shape(r.value.1)
    ensures r.Success? ==> m.memSize <= r.value.1.memSize && r.value.1.exported == m.exported
    decreases Remaining(s, ls)
  {
    if ls.buf == ".text" then Success((ls, m))
    else if ls.buf == "" then Failure(Unterminated(".text"))
    else
      var (ls1, m1) :- DataEntry(d, s, ls, m);
      DataSection(d, s, ls1, m1)
  }

  /** One turn of the text-section loop, with `field` the operand the next
      token fills (0, 1 or 2). */
  function TextStep(s: string, ls: LexState, m: Machine, field: nat): (r: Result<(LexState, Machine, nat)>)
    requires ls.pos <= |s| && ls.buf != "" && Shape(m) && field < 3
    ensures r.Success? ==> r.value.0.pos <= |s| && Shape(r.value.1) && r.value.2 < 3
    ensures r.Success? ==>
      Remaining(s, r.value.0) < Remaining(s, ls) || (r.value.0 == ls && field == 2 && r.value.2 == 0)
  {
    if field == 2 && ls.tokenLine != ls.lastTokenLine then
      var addr: u32 := m.memSize;
      var m1 :- Write(m.(relatives := m.relatives + {addr}), addr + 1);
      Success((ls, m1, 0))
    else if ls.buf[|ls.buf| - 1] == ':' then
      var m1 := Bind(m, Label(ls.buf));
      var m2 := if ls.buf == "start:" then m1.(exported := m1.exported + {"start"}) else m1;
      Success((Read(s, ls), m2, field))
    else
      var f :- ParseField(m, ls.buf);
      var m1 :- Write(f.m, f.value);
      Success((Read(s, ls.(buf := f.buf)), m1, (field + 1) % 3))
  }

  /** The text section: steps until `readToken` returns nothing. */
  function TextSection(s: string, ls: LexState, m: Machine, field: nat): (r: Result<Machine>)
    requires ls.pos <= |s| && Shape(m) && field < 3
    ensures r.Success? ==> Shape(r.value)
    decreases Remaining(s, ls), if field == 2 then 1 else 0
  {
    if ls.buf == "" then Success(m)
    else
      var (ls1, m1, f1) :- TextStep(s, ls, m, field);
      TextSection(s, ls1, m1, f1)
  }

  // ---- resolution and output ----------------------------------------------

  /** The defined name, if any, that the word at `a` is pending on. */
  ghost function Owner(m: Machine, a: u32): (o: Option<string>)
    ensures o.Some? ==> o.value in m.references && o.value in m.symbols && a in m.references[o.value]
    ensures o.None? ==> forall n | n in m.references && a in m.references[n] :: n !in m.symbols
  {
    if exists n :: n in m.references && n in m.symbols && a in m.references[n] then
      var n :| n in m.references && n in m.symbols && a in m.references[n];
      Some(n)
    else None
  }

  /** The resolution loop: each word pending on a name that is now defined
      gets that name's address added (modulo 2^32), and the name leaves the
      pending table; names still undefined keep their addresses. */
  ghost function Resolve(m: Machine): (r: Machine)
    requires Shape(m)
    ensures Shape(r) && r == m.(mem := r.mem, references := r.references)
    ensures forall n :: n in r.references <==> n in m.references && n !in m.symbols
    ensures forall n | n in r.references :: r.references[n] == m.references[n]
    ensures forall a | 0 <= a < |m.mem| && Owner(m, a).None? :: r.mem[a] == m.mem[a]
  {
    m.(mem := seq(|m.mem|, a requires 0 <= a < |m.mem| => ResolvedWord(m, a)),
       references := map n | n in m.references && n !in m.symbols :: m.references[n])
  }

  /** The word at `a` once resolved: patched by its owner's address, if any. */
  ghost function ResolvedWord(m: Machine, a: nat): u32
    requires Shape(m) && a < |m.mem|
  {
    match Owner(m, a)
    case Some(n) => Wrap32(m.mem[a] as int + m.symbols[n] as int)
    case None => m.mem[a]
  }

  /** Under the invariant a pending address has exactly one owner. */
  lemma OwnerIs(m: Machine, n: string, a: u32)
    requires Inv(m) && n in m.references && n in m.symbols && a in m.references[n]
    ensures a < m.memSize && Owner(m, a) == Some(n)
  {
  }

  lemma PendingListAppend(m: Machine, names: seq<string>, name: string)
    ensures PendingList(m, names + [name]) == PendingList(m, names) + [(name, SortedWords(RefsOf(m.references, name)))]
  {
  }

  /** The pending names with their addresses in increasing order. */
  ghost function PendingList(m: Machine, names: seq<string>): (ps: seq<(string, seq<u32>)>)
    ensures |ps| == |names|
    ensures forall i | 0 <= i < |names| :: ps[i] == (names[i], SortedWords(RefsOf(m.references, names[i])))
  {
    seq(|names|, i requires 0 <= i < |names| => (names[i], SortedWords(RefsOf(m.references, names[i]))))
  }

  /** The bytes the pending loop writes for `names`. */
  ghost function PendingEntries(m: Machine, names: seq<string>): seq<u8>
    requires forall i | 0 <= i < |names| :: IsByteString(names[i])
  {
    Pending32(PendingList(m, names))
  }

  /** Writing one more pending name appends the name, its NUL, the number
      of its words and the words in increasing order. */
  lemma PendingEntriesStep(m: Machine, names: seq<string>, i: nat)
    requires forall j | 0 <= j < |names| :: IsByteString(names[j])
    requires i < |names|
    ensures PendingEntries(m, names[..i + 1]) ==
      PendingEntries(m, names[..i]) +
      (CString(names[i]) + Le32(Wrap32(|RefsOf(m.references, names[i])|)) + Words32(SortedWords(RefsOf(m.references, names[i]))))
  {
    assert names[..i + 1] == names[..i] + [names[i]];
    PendingListAppend(m, names[..i], names[i]);
    Pending32Append(PendingList(m, names[..i]), (names[i], SortedWords(RefsOf(m.references, names[i]))));
  }

  /** What the write block puts in the object file, in the order of
      `std::set` / `std::map` iteration. */
  ghost function ObjectOf(m: Machine): Object32
    requires Shape(m)
  {
    Object32(
      ExportList(m.symbols, SortedStrings(m.exported)),
      PendingList(m, SortedStrings(m.references.Keys)),
      SortedWords(m.relatives),
      m.mem[..m.memSize])
  }

  /** The object file lists the exported names once each, in increasing
      order, each with its address. */
  lemma ObjectExports(m: Machine)
    requires Shape(m)
    ensures var es := ObjectOf(m).exports;
      StrictlySortedStrings(Names(es)) && (forall n :: n in Names(es) <==> n in m.exported) &&
      (forall i | 0 <= i < |es| :: es[i].1 == Lookup(m.symbols, es[i].0))
  {
    SortedStringsSpec(m.exported);
    assert Names(ObjectOf(m).exports) == SortedStrings(m.exported);
  }

  /** It lists the pending names once each, in increasing order, each with
      its words in increasing order. */
  lemma ObjectPending(m: Machine)
    requires Shape(m)
    ensures var ps := ObjectOf(m).pending;
      StrictlySortedStrings(Names(ps)) && (forall n :: n in Names(ps) <==> n in m.references) &&
      (forall i | 0 <= i < |ps| ::
        StrictlySortedWords(ps[i].1) && (forall a :: a in ps[i].1 <==> a in m.references[ps[i].0]))
  {
    var ps := ObjectOf(m).pending;
    SortedStringsSpec(m.references.Keys);
    assert Names(ps) == SortedStrings(m.references.Keys);
    forall i | 0 <= i < |ps|
      ensures StrictlySortedWords(ps[i].1) && (forall a :: a in ps[i].1 <==> a in m.references[ps[i].0])
    {
      var n := ps[i].0;
      assert n == Names(ps)[i];
      assert n in m.references && ps[i].1 == SortedWords(m.references[n]);
      SortedWordsSpec(m.references[n]);
    }
  }

  /** It lists the relocations once each in increasing order, then the
      words written. */
  lemma ObjectRelatives(m: Machine)
    requires Shape(m)
    ensures var o := ObjectOf(m);
      StrictlySortedWords(o.relatives) && (forall a :: a in o.relatives <==> a in m.relatives) &&
      o.code == m.mem[..m.memSize]
  {
    SortedWordsSpec(m.relatives);
  }

  /** Every name the writer meets is a byte string. */
  lemma ObjectOfWritable(m: Machine)
    requires Shape(m) && ByteNames(m)
    ensures Writable32(ObjectOf(m))
  {
    var en := SortedStrings(m.exported);
    var pn := SortedStrings(m.references.Keys);
    SortedStringsSpec(m.exported);
    SortedStringsSpec(m.references.Keys);
    AllByteStrings(en, m.exported);
    AllByteStrings(pn, m.references.Keys);
  }

  /** The bytes of the object file. */
  ghost function ObjectBytes(m: Machine): seq<u8>
    requires Shape(m) && ByteNames(m)
  {
    ObjectOfWritable(m);
    Encode32(ObjectOf(m))
  }

  /** The pending-reference block of the object file. */
  ghost function PendingPart(m: Machine): seq<u8>
    requires Shape(m) && ByteNames(m)
  {
    ObjectOfWritable(m);
    Pending32Block(ObjectOf(m).pending)
  }

  /** The pending block is the count followed by the entries in visit order. */
  lemma PendingPartIs(m: Machine, names: seq<string>)
    requires Shape(m) && ByteNames(m) && names == SortedStrings(m.references.Keys)
    requires forall i | 0 <= i < |names| :: IsByteString(names[i])
    ensures PendingPart(m) == Le32(Wrap32(|m.references|)) + PendingEntries(m, names)
  {
    ObjectOfWritable(m);
    assert ObjectOf(m).pending == PendingList(m, names);
  }

  /** The object file a run writes, or why it writes none. */
  ghost function Output(d: Dialect, s: string, image: seq<u32>): Result<seq<u8>>
    requires |image| == MEM_WORDS && IsByteString(s)
  {
    AssembleKeeps(d, s, image);
    var m :- Assemble(d, s, image);
    Success(ObjectBytes(m))
  }

  /** The three sections of `main` (or `assembler32`), before resolution. */
  ghost function Parse(d: Dialect, s: string, image: seq<u32>): (r: Result<Machine>)
    requires |image| == MEM_WORDS
  {
    var ls0 := Read(s, Read(s, Start));
    var (ls1, exported) :- ExportSection(s, ls0, {});
    var (ls2, m2) :- DataSection(d, s, Read(s, ls1), Initial(image).(exported := exported));
    var m3 :- TextSection(s, Read(s, ls2), m2, 0);
    Success(m3)
  }

  /** The whole run up to the object file. */
  ghost function Assemble(d: Dialect, s: string, image: seq<u32>): (r: Result<Machine>)
    requires |image| == MEM_WORDS
  {
    var m :- Parse(d, s, image);
    Success(Resolve(m))
  }

  // ---- what the steps keep ----------------------------------------------

  /** A field only records the word at `mem_size`: the tables stay within
      one word past the buffer's cursor, and `buf` stays a byte string. */
  lemma ParseFieldKeeps(m: Machine, t: string)
    requires Inv(m) && m.memSize < MEM_WORDS && IsByteString(t)
    ensures ParseField(m, t).Success? ==>
      Within(ParseField(m, t).value.m, m.memSize + 1) && IsByteString(ParseField(m, t).value.buf)
  {
    var r := ParseField(m, t);
    if r.Success? && !IsHexToken(t) {
      var f := r.value;
      var name := SplitOffset(t).0;
      assert IsByteString(name) by {
        assert name == t[..|name|];
      }
      var addr: u32 := m.memSize;
      if name !in m.symbols {
        forall n, k, a | n in f.m.references && k in f.m.references && a in f.m.references[n] && a in f.m.references[k]
          ensures n == k
        {
          if a == addr {
            assert n == name && k == name;
          }
        }
      }
    }
  }

  /** A label in the data or text section binds the name to `mem_size`. */
  lemma BindKeeps(m: Machine, t: string)
    requires Inv(m) && t != "" && IsByteString(t)
    ensures Inv(Bind(m, Label(t))) && IsByteString(Label(t))
  {
  }

  /** A data entry writes or reserves words and keeps the invariant. */
  lemma {:induction false} IArrayKeeps(s: string, ls: LexState, m: Machine)
    requires ls.pos <= |s| && Inv(m) && IsByteString(s) && IsByteString(ls.buf)
    ensures IArray(s, ls, m).Success? ==>
      Inv(IArray(s, ls, m).value.1) && IsByteString(IArray(s, ls, m).value.0.buf)
    decreases Remaining(s, ls)
  {
    if ls.tokenLine == ls.lastTokenLine && ls.buf != "" {
      var v := ParseData(ls.buf);
      if v.Success? && m.memSize < MEM_WORDS {
        IArrayKeeps(s, Read(s, ls), Write(m, v.value).value);
      }
    }
  }

  /** Writing or reserving words past the recorded addresses keeps the invariant. */
  lemma WithinWiden(m: Machine, m': Machine, bound: nat)
    requires Within(m, bound) && Shape(m') && bound <= m'.memSize && m.memSize <= m'.memSize
    requires m' == m.(mem := m'.mem, memSize := m'.memSize)
    ensures Inv(m')
  {
  }

  lemma ArrayEntryKeeps(s: string, ls: LexState, m: Machine)
    requires ls.pos <= |s| && ls.buf != "" && Inv(m) && IsByteString(s)
    ensures ArrayEntry(s, ls, m).Success? ==>
      Inv(ArrayEntry(s, ls, m).value.1) && IsByteString(ArrayEntry(s, ls, m).value.0.buf)
  {
    var r := ArrayEntry(s, ls, m);
    if r.Success? {
      WithinWiden(m, r.value.1, m.memSize);
    }
  }

  lemma PtrEntryKeeps(d: Dialect, s: string, ls: LexState, m: Machine)
    requires ls.pos <= |s| && ls.buf != "" && Inv(m) && IsByteString(s) && IsByteString(ls.buf)
    ensures PtrEntry(d, s, ls, m).Success? ==>
      Inv(PtrEntry(d, s, ls, m).value.1) && IsByteString(PtrEntry(d, s, ls, m).value.0.buf)
  {
    var ls1 := if d == MainCpp then Read(s, ls) else ls;
    var r := PtrEntry(d, s, ls, m);
    if r.Success? {
      ParseFieldKeeps(m, ls1.buf);
      var f := ParseField(m, ls1.buf).value;
      WithinWiden(f.m, r.value.1, m.memSize + 1);
    }
  }

  lemma WordEntryKeeps(s: string, ls: LexState, m: Machine)
    requires ls.pos <= |s| && Inv(m) && IsByteString(s)
    ensures WordEntry(s, ls, m).Success? ==>
      Inv(WordEntry(s, ls, m).value.1) && IsByteString(WordEntry(s, ls, m).value.0.buf)
  {
    var r := WordEntry(s, ls, m);
    if r.Success? {
      WithinWiden(m, r.value.1, m.memSize);
    }
  }

  lemma DataEntryKeeps(d: Dialect, s: string, ls: LexState, m: Machine)
    requires ls.pos <= |s| && ls.buf != "" && Inv(m) && IsByteString(s) && IsByteString(ls.buf)
    ensures DataEntry(d, s, ls, m).Success? ==>
      Inv(DataEntry(d, s, ls, m).value.1) && IsByteString(DataEntry(d, s, ls, m).value.0.buf)
  {
    var m1 := Bind(m, Label(ls.buf));
    BindKeeps(m, ls.buf);
    var ls1 := Read(s, ls);
    if ls1.buf == ".array" {
      ArrayEntryKeeps(s, ls1, m1);
    } else if ls1.buf == ".iarray" {
      IArrayKeeps(s, Read(s, ls1), m1);
    } else if ls1.buf == ".ptr" {
      PtrEntryKeeps(d, s, ls1, m1);
    } else {
      WordEntryKeeps(s, ls1, m1);
    }
  }

  lemma {:induction false} DataSectionKeeps(d: Dialect, s: string, ls: LexState, m: Machine)
    requires ls.pos <= |s| && Inv(m) && IsByteString(s) && IsByteString(ls.buf)
    ensures DataSection(d, s, ls, m).Success? ==> Inv(DataSection(d, s, ls, m).value.1)
    decreases Remaining(s, ls)
  {
    if ls.buf != ".text" && ls.buf != "" {
      DataEntryKeeps(d, s, ls, m);
      var r := DataEntry(d, s, ls, m);
      if r.Success? {
        DataSectionKeeps(d, s, r.value.0, r.value.1);
      }
    }
  }

  lemma TextStepKeeps(s: string, ls: LexState, m: Machine, field: nat)
    requires ls.pos <= |s| && ls.buf != "" && Inv(m) && field < 3 && IsByteString(s) && IsByteString(ls.buf)
    ensures TextStep(s, ls, m, field).Success? ==>
      Inv(TextStep(s, ls, m, field).value.1) && IsByteString(TextStep(s, ls, m, field).value.0.buf)
  {
    var r := TextStep(s, ls, m, field);
    if r.Success? {
      if field == 2 && ls.tokenLine != ls.lastTokenLine {
        var addr: u32 := m.memSize;
        var m1 := m.(relatives := m.relatives + {addr});
        assert Within(m1, m.memSize + 1);
        WithinWiden(m1, r.value.1, m.memSize + 1);
      } else if ls.buf[|ls.buf| - 1] == ':' {
        BindKeeps(m, ls.buf);
      } else {
        ParseFieldKeeps(m, ls.buf);
        WithinWiden(ParseField(m, ls.buf).value.m, r.value.1, m.memSize + 1);
      }
    }
  }

  lemma {:induction false} TextSectionKeeps(s: string, ls: LexState, m: Machine, field: nat)
    requires ls.pos <= |s| && Inv(m) && field < 3 && IsByteString(s) && IsByteString(ls.buf)
    ensures TextSection(s, ls, m, field).Success? ==> Inv(TextSection(s, ls, m, field).value)
    decreases Remaining(s, ls), if field == 2 then 1 else 0
  {
    if ls.buf != "" {
      TextStepKeeps(s, ls, m, field);
      var r := TextStep(s, ls, m, field);
      if r.Success? {
        TextSectionKeeps(s, r.value.0, r.value.1, r.value.2);
      }
    }
  }

  /** Resolution adds each defined name's address to every word pending on
      it; the disjointness of the pending sets makes the owner unique. */
  lemma ResolvePatches(m: Machine, n: string, a: u32)
    requires Inv(m) && n in m.references && n in m.symbols && a in m.references[n]
    ensures a < m.memSize && Resolve(m).mem[a] == Wrap32(m.mem[a] as int + m.symbols[n] as int)
  {
    OwnerIs(m, n, a);
  }

  lemma ResolveKeeps(m: Machine)
    requires Inv(m)
    ensures Inv(Resolve(m))
  {
    var r := Resolve(m);
    forall n, k, a | n in r.references && k in r.references && a in r.references[n] && a in r.references[k]
      ensures n == k
    {
      assert a in m.references[n] && a in m.references[k];
    }
  }

  /** Every run that produces an object file leaves the invariant holding:
      each pending address is a relocation inside the code, and so on. */
  lemma ParseKeeps(d: Dialect, s: string, image: seq<u32>)
    requires |image| == MEM_WORDS && IsByteString(s)
    ensures Parse(d, s, image).Success? ==> Inv(Parse(d, s, image).value)
  {
    var ls0 := Read(s, Read(s, Start));
    ExportSectionBytes(s, ls0, {});
    var e := ExportSection(s, ls0, {});
    if e.Success? {
      var (ls1, exported) := e.value;
      var m1 := Initial(image).(exported := exported);
      DataSectionKeeps(d, s, Read(s, ls1), m1);
      var dr := DataSection(d, s, Read(s, ls1), m1);
      if dr.Success? {
        var (ls2, m2) := dr.value;
        TextSectionKeeps(s, Read(s, ls2), m2, 0);
      }
    }
  }

  lemma AssembleKeeps(d: Dialect, s: string, image: seq<u32>)
    requires |image| == MEM_WORDS && IsByteString(s)
    ensures Assemble(d, s, image).Success? ==> Inv(Assemble(d, s, image).value)
  {
    ParseKeeps(d, s, image);
    var p := Parse(d, s, image);
    if p.Success? {
      ResolveKeeps(p.value);
    }
  }

  // ---- what the steps never undo -------------------------------------------

  /** `m'` comes after `m`: no word below `m`'s cursor is rewritten and no
      pending address is dropped. */
  predicate Grows(m: Machine, m': Machine) {
    Shape(m) && Shape(m') && m.memSize <= m'.memSize && m'.mem[..m.memSize] == m.mem[..m.memSize] &&
    forall n | n in m.references :: n in m'.references && m.references[n] <= m'.references[n]
  }

  lemma GrowsTrans(m1: Machine, m2: Machine, m3: Machine)
    requires Grows(m1, m2) && Grows(m2, m3)
    ensures Grows(m1, m3)
  {
    assert m3.mem[..m1.memSize] == m3.mem[..m2.memSize][..m1.memSize];
    assert m2.mem[..m1.memSize] == m2.mem[..m2.memSize][..m1.memSize];
  }

  /** A field changes no word and only adds a pending address. */
  lemma ParseFieldGrows(m: Machine, t: string)
    requires Shape(m) && m.memSize < MEM_WORDS
    ensures ParseField(m, t).Success? ==> Grows(m, ParseField(m, t).value.m)
  {
  }

  /** `mem[mem_size++] = v` leaves the words below `mem_size` alone. */
  lemma WriteGrows(m: Machine, v: u32)
    requires Shape(m) && m.memSize < MEM_WORDS
    ensures Grows(m, Write(m, v).value)
  {
    assert Write(m, v).value.mem[..m.memSize] == m.mem[..m.memSize];
  }

  /** A data entry rewrites no word below `mem_size` and drops no pending
      address. */
  lemma DataEntryGrows(d: Dialect, s: string, ls: LexState, m: Machine)
    requires ls.pos <= |s| && ls.buf != "" && Shape(m)
    ensures DataEntry(d, s, ls, m).Success? ==> Grows(m, DataEntry(d, s, ls, m).value.1)
  {
    var m1 := Bind(m, Label(ls.buf));
    var ls1 := Read(s, ls);
    var r := DataEntry(d, s, ls, m);
    if r.Success? && ls1.buf != ".array" && ls1.buf != ".iarray" {
      var ls2 := if ls1.buf == ".ptr" && d == MainCpp then Read(s, ls1) else ls1;
      if ls1.buf == ".ptr" {
        ParseFieldGrows(m1, ls2.buf);
        var f := ParseField(m1, ls2.buf).value;
        WriteGrows(f.m, f.value);
        GrowsTrans(m1, f.m, Write(f.m, f.value).value);
      } else {
        WriteGrows(m1, ParseData(ls1.buf).value);
      }
    }
  }

  lemma {:induction false} DataSectionGrows(d: Dialect, s: string, ls: LexState, m: Machine)
    requires ls.pos <= |s| && Shape(m)
    ensures DataSection(d, s, ls, m).Success? ==> Grows(m, DataSection(d, s, ls, m).value.1)
    decreases Remaining(s, ls)
  {
    if ls.buf != ".text" && ls.buf != "" {
      DataEntryGrows(d, s, ls, m);
      var r := DataEntry(d, s, ls, m);
      if r.Success? {
        DataSectionGrows(d, s, r.value.0, r.value.1);
        if DataSection(d, s, ls, m).Success? {
          GrowsTrans(m, r.value.1, DataSection(d, s, ls, m).value.1);
        }
      }
    }
  }

  /** A turn of the text loop rewrites no word below `mem_size` and drops no
      pending address. */
  lemma TextStepGrows(s: string, ls: LexState, m: Machine, field: nat)
    requires ls.pos <= |s| && ls.buf != "" && Shape(m) && field < 3
    ensures TextStep(s, ls, m, field).Success? ==> Grows(m, TextStep(s, ls, m, field).value.1)
  {
    if TextStep(s, ls, m, field).Success? && m.memSize < MEM_WORDS {
      if field == 2 && ls.tokenLine != ls.lastTokenLine {
        var addr: u32 := m.memSize;
        WriteGrows(m.(relatives := m.relatives + {addr}), addr + 1);
      } else if ls.buf[|ls.buf| - 1] != ':' {
        ParseFieldGrows(m, ls.buf);
        var f := ParseField(m, ls.buf).value;
        WriteGrows(f.m, f.value);
        GrowsTrans(m, f.m, Write(f.m, f.value).value);
      }
    }
  }

  lemma {:induction false} TextSectionGrows(s: string, ls: LexState, m: Machine, field: nat)
    requires ls.pos <= |s| && Shape(m) && field < 3
    ensures TextSection(s, ls, m, field).Success? ==> Grows(m, TextSection(s, ls, m, field).value)
    decreases Remaining(s, ls), if field == 2 then 1 else 0
  {
    if ls.buf != "" {
      TextStepGrows(s, ls, m, field);
      var r := TextStep(s, ls, m, field);
      if r.Success? {
        TextSectionGrows(s, r.value.0, r.value.1, r.value.2);
        if TextSection(s, ls, m, field).Success? {
          GrowsTrans(m, r.value.1, TextSection(s, ls, m, field).value);
        }
      }
    }
  }

  // ---- particular rules --------------------------------------------------

  lemma {:induction false} PlusIndexJoined(name: string, rest: string)
    requires '+' !in name
    ensures PlusIndex(name + "+" + rest) == |name|
    decreases |name|
  {
    if name != [] {
      assert (name + "+" + rest)[1..] == name[1..] + "+" + rest;
      PlusIndexJoined(name[1..], rest);
    }
  }

  /** `name+N` splits back into its name and its offset text. */
  lemma SplitJoined(name: string, offset: string)
    requires '+' !in name
    ensures SplitOffset(name + "+" + offset) == (name, Some(offset))
  {
    PlusIndexJoined(name, offset);
    var t := name + "+" + offset;
    assert t[..|name|] == name && t[|name| + 1..] == offset;
  }

  lemma JoinedNotHex(name: string, offset: string)
    requires !IsHexToken(name)
    ensures !IsHexToken(name + "+" + offset)
  {
    var t := name + "+" + offset;
    if |name| >= 2 {
      assert t[0] == name[0] && t[1] == name[1];
    } else if |name| == 1 {
      assert t[1] == '+';
    } else {
      assert t[0] == '+';
    }
  }

  /** `name+N` for a name already defined: the field is the name's address
      and N is ignored, whatever it is; for an undefined name the field is
      N and the word waits on the name. Either way the word is a relocation
      and `buf` is cut back to the name. */
  lemma OffsetField(m: Machine, name: string, offset: string)
    requires m.memSize < TWO32 && '+' !in name && !IsHexToken(name)
    ensures name in m.symbols ==>
      ParseField(m, name + "+" + offset) == ParseField(m, name) &&
      ParseField(m, name).Success? && ParseField(m, name).value.value == m.symbols[name]
    ensures name !in m.symbols && OffsetValue(Some(offset)).Success? ==>
      var r := ParseField(m, name + "+" + offset);
      r.Success? && r.value.value == OffsetValue(Some(offset)).value && r.value.buf == name &&
      m.memSize in r.value.m.relatives && m.memSize in r.value.m.references[name]
  {
    SplitJoined(name, offset);
    JoinedNotHex(name, offset);
  }

  /** The turn that reads `name+N`, `name` not yet defined: the word at
      `mem_size` holds N and waits on `name`. */
  lemma ForwardOffsetStep(s: string, ls: LexState, m: Machine, field: nat, name: string, offset: string)
    requires ls.pos <= |s| && Shape(m) && field < 3
    requires ls.buf == name + "+" + offset && ls.buf[|ls.buf| - 1] != ':'
    requires '+' !in name && !IsHexToken(name) && name !in m.symbols
    requires !(field == 2 && ls.tokenLine != ls.lastTokenLine)
    ensures var r := TextStep(s, ls, m, field);
      r.Success? ==>
      OffsetValue(Some(offset)).Success? && r.value.1.memSize == m.memSize + 1 &&
      r.value.1.mem[m.memSize] == OffsetValue(Some(offset)).value &&
      name in r.value.1.references && m.memSize in r.value.1.references[name]
  {
    SplitJoined(name, offset);
    JoinedNotHex(name, offset);
    OffsetField(m, name, offset);
  }

  /** A later state in which `name` is defined: resolving it adds the
      address of `name` to a word that was waiting on it. */
  lemma PendingPatched(m: Machine, m': Machine, name: string, a: u32, v: u32)
    requires Inv(m') && Grows(m, m') && name in m'.symbols
    requires a < m.memSize && m.mem[a] == v && name in m.references && a in m.references[name]
    ensures a < m'.memSize && Resolve(m').mem[a] == Wrap32(v as int + m'.symbols[name] as int)
  {
    assert m'.mem[a] == v by {
      assert m'.mem[a] == m'.mem[..m.memSize][a];
      assert m.mem[a] == m.mem[..m.memSize][a];
    }
    ResolvePatches(m', name, a);
  }

  /** A word waiting on `name` keeps its value and its wait for the rest of
      the text section, and if `name` has been defined by the end of it,
      resolution adds the address of `name` to the word. */
  lemma PendingResolved(s: string, ls: LexState, m: Machine, field: nat, name: string, a: u32, v: u32, m': Machine)
    requires ls.pos <= |s| && Inv(m) && field < 3 && IsByteString(s) && IsByteString(ls.buf)
    requires a < m.memSize && m.mem[a] == v && name in m.references && a in m.references[name]
    requires TextSection(s, ls, m, field) == Success(m') && name in m'.symbols
    ensures a < m'.memSize && Resolve(m').mem[a] == Wrap32(v as int + m'.symbols[name] as int)
  {
    TextSectionKeeps(s, ls, m, field);
    TextSectionGrows(s, ls, m, field);
    PendingPatched(m, m', name, a, v);
  }

  /** `name+N` with `name` not yet defined, as an operand of the text
      section: if the rest of the section ends in `m'` and `name` is defined
      there, resolution makes `r` of it, in which the word at the operand's
      address holds N plus the address of `name`, modulo 2^32. */
  lemma ForwardOffsetResolved(s: string, ls: LexState, m: Machine, field: nat, name: string, offset: string,
                              m': Machine, r: Machine)
    requires ls.pos <= |s| && Inv(m) && field < 3 && IsByteString(s) && IsByteString(ls.buf)
    requires ls.buf == name + "+" + offset && ls.buf[|ls.buf| - 1] != ':'
    requires '+' !in name && !IsHexToken(name) && name !in m.symbols
    requires !(field == 2 && ls.tokenLine != ls.lastTokenLine)
    requires TextSection(s, ls, m, field) == Success(m') && Shape(m') && r == Resolve(m') && name in r.symbols
    ensures OffsetValue(Some(offset)).Success? && m.memSize < r.memSize &&
      r.mem[m.memSize] == Wrap32(OffsetValue(Some(offset)).value as int + r.symbols[name] as int)
  {
    var ls1, m1, f1 := TextSectionFirst(s, ls, m, field, m');
    ForwardOffsetThen(s, ls, m, field, name, offset, ls1, m1, f1, m');
  }

  /** The same, with the operand's turn and the rest of the section apart. */
  lemma ForwardOffsetThen(s: string, ls: LexState, m: Machine, field: nat, name: string, offset: string,
                          ls1: LexState, m1: Machine, f1: nat, m': Machine)
    requires ls.pos <= |s| && Inv(m) && field < 3 && IsByteString(s) && IsByteString(ls.buf)
    requires ls.buf == name + "+" + offset && ls.buf[|ls.buf| - 1] != ':'
    requires '+' !in name && !IsHexToken(name) && name !in m.symbols
    requires !(field == 2 && ls.tokenLine != ls.lastTokenLine)
    requires ls1.pos <= |s| && Shape(m1) && f1 < 3
    requires TextStep(s, ls, m, field) == Success((ls1, m1, f1))
    requires TextSection(s, ls1, m1, f1) == Success(m') && name in m'.symbols
    ensures OffsetValue(Some(offset)).Success? && m.memSize < m'.memSize &&
      Resolve(m').mem[m.memSize] == Wrap32(OffsetValue(Some(offset)).value as int + m'.symbols[name] as int)
  {
    var a := m.memSize as u32;
    assert OffsetValue(Some(offset)).Success? && a < m1.memSize && m1.mem[a] == OffsetValue(Some(offset)).value &&
      name in m1.references && a in m1.references[name] by {
      ForwardOffsetStep(s, ls, m, field, name, offset);
    }
    assert Inv(m1) && IsByteString(ls1.buf) by {
      TextStepKeeps(s, ls, m, field);
    }
    PendingResolved(s, ls1, m1, f1, name, a, OffsetValue(Some(offset)).value, m');
  }

  /** A text section that reaches `m'` from a token takes a first turn and
      reaches `m'` from where that turn leaves it. */
  lemma TextSectionFirst(s: string, ls: LexState, m: Machine, field: nat, m': Machine)
      returns (ls1: LexState, m1: Machine, f1: nat)
    requires ls.pos <= |s| && ls.buf != "" && Shape(m) && field < 3
    requires TextSection(s, ls, m, field) == Success(m')
    ensures ls1.pos <= |s| && Shape(m1) && f1 < 3
    ensures TextStep(s, ls, m, field) == Success((ls1, m1, f1)) && TextSection(s, ls1, m1, f1) == Success(m')
  {
    var step := TextStep(s, ls, m, field);
    assert step.Success?;
    ls1, m1, f1 := step.value.0, step.value.1, step.value.2;
  }

  /** Where the text section of a run starts: the token after `.text` and
      the tables and buffer the data section left. */
  ghost function TextStart(d: Dialect, s: string, image: seq<u32>): (r: Result<(LexState, Machine)>)
    requires |image| == MEM_WORDS
    ensures r.Success? ==> r.value.0.pos <= |s| && Shape(r.value.1)
  {
    var ls0 := Read(s, Read(s, Start));
    var (ls1, exported) :- ExportSection(s, ls0, {});
    var (ls2, m2) :- DataSection(d, s, Read(s, ls1), Initial(image).(exported := exported));
    Success((Read(s, ls2), m2))
  }

  /** A run is its text section from where that section starts, and the
      invariant holds there. */
  lemma TextStartThen(d: Dialect, s: string, image: seq<u32>)
    requires |image| == MEM_WORDS && IsByteString(s)
    ensures TextStart(d, s, image).Failure? ==> Parse(d, s, image).Failure?
    ensures TextStart(d, s, image).Success? ==>
      var (ls, m) := TextStart(d, s, image).value;
      Inv(m) && IsByteString(ls.buf) && Parse(d, s, image) == TextSection(s, ls, m, 0)
  {
    var ls0 := Read(s, Read(s, Start));
    ExportSectionBytes(s, ls0, {});
    var e := ExportSection(s, ls0, {});
    if e.Success? {
      var (ls1, exported) := e.value;
      var m1 := Initial(image).(exported := exported);
      DataSectionKeeps(d, s, Read(s, ls1), m1);
    }
  }

  /** The text loop, started at `(ls, m, field)`, passes through
      `(ls', m', field')` on the way. */
  ghost predicate Reaches(s: string, ls: LexState, m: Machine, field: nat, ls': LexState, m': Machine, field': nat)
    requires ls.pos <= |s| && Shape(m) && field < 3
    decreases Remaining(s, ls), if field == 2 then 1 else 0
  {
    (ls == ls' && m == m' && field == field') ||
    (ls.buf != "" && TextStep(s, ls, m, field).Success? &&
     var (ls1, m1, f1) := TextStep(s, ls, m, field).value;
     Reaches(s, ls1, m1, f1, ls', m', field'))
  }

  /** Every state the text loop passes through keeps the invariant, and the
      section ends there as it would from the start. */
  lemma {:induction false} ReachesKeeps(s: string, ls: LexState, m: Machine, field: nat, ls': LexState, m': Machine, field': nat)
    requires ls.pos <= |s| && Inv(m) && field < 3 && IsByteString(s) && IsByteString(ls.buf)
    requires Reaches(s, ls, m, field, ls', m', field')
    ensures ls'.pos <= |s| && Inv(m') && field' < 3 && IsByteString(ls'.buf)
    ensures TextSection(s, ls, m, field) == TextSection(s, ls', m', field')
    decreases Remaining(s, ls), if field == 2 then 1 else 0
  {
    if !(ls == ls' && m == m' && field == field') {
      var (ls1, m1, f1) := TextStep(s, ls, m, field).value;
      TextStepKeeps(s, ls, m, field);
      ReachesKeeps(s, ls1, m1, f1, ls', m', field');
    }
  }

  /** A whole run that produces `r`: an operand `name+N` read at any point
      of the text section while `name` is still undefined. If `name` is
      defined by the end of the run, the object file's word at the
      operand's address holds N plus the address of `name`, modulo 2^32. */
  lemma AssembleForwardOffset(d: Dialect, s: string, image: seq<u32>, ls0: LexState, m0: Machine,
                              ls: LexState, m: Machine, field: nat, name: string, offset: string, r: Machine)
    requires |image| == MEM_WORDS && IsByteString(s) && TextStart(d, s, image) == Success((ls0, m0))
    requires Reaches(s, ls0, m0, 0, ls, m, field)
    requires ls.buf == name + "+" + offset && ls.buf[|ls.buf| - 1] != ':'
    requires '+' !in name && !IsHexToken(name) && name !in m.symbols
    requires !(field == 2 && ls.tokenLine != ls.lastTokenLine)
    requires Assemble(d, s, image) == Success(r) && name in r.symbols
    ensures OffsetValue(Some(offset)).Success? && m.memSize < r.memSize &&
      r.mem[m.memSize] == Wrap32(OffsetValue(Some(offset)).value as int + r.symbols[name] as int)
  {
    assert Inv(m0) && IsByteString(ls0.buf) && Parse(d, s, image) == TextSection(s, ls0, m0, 0) by {
      TextStartThen(d, s, image);
    }
    assert ls.pos <= |s| && Inv(m) && field < 3 && IsByteString(ls.buf) &&
      TextSection(s, ls0, m0, 0) == TextSection(s, ls, m, field) by {
      ReachesKeeps(s, ls0, m0, 0, ls, m, field);
    }
    var m' := Parse(d, s, image).value;
    assert r == Resolve(m');
    ForwardOffsetResolved(s, ls, m, field, name, offset, m', r);
  }

  /** A decimal offset below 2^32 is what an undefined name's field holds. */
  lemma DecimalOffset(k: nat)
    requires k < TWO32
    ensures OffsetValue(Some(DecimalString(k))) == Success(k)
  {
    DecimalRoundTrip(k);
  }

  /** The `.ptr` entry of assembler32.cpp: `.ptr` itself is parsed as the
      operand, so the word is left pending on the name `.ptr` and the token
      meant as the target becomes the next entry's label. */
  lemma PtrOperandAsm32(s: string, ls: LexState, m: Machine)
    requires ls.pos <= |s| && ls.buf != "" && Shape(m) && m.memSize < MEM_WORDS
    requires Read(s, ls).buf == ".ptr" && ".ptr" !in m.symbols && Label(ls.buf) != ".ptr"
    ensures var r := DataEntry(Asm32, s, ls, m);
      r.Success? && r.value.0 == Read(s, Read(s, ls)) &&
      r.value.1.mem[m.memSize] == 0 && ".ptr" in r.value.1.references &&
      m.memSize in r.value.1.references[".ptr"]
  {
    assert !IsHexToken(".ptr");
    assert SplitOffset(".ptr") == (".ptr", None) by {
      assert PlusIndex(".ptr") == 4;
    }
  }

  /** The `.ptr` entry of main.cpp: the operand is the token after `.ptr`,
      and a defined name there gives the word its address. */
  lemma PtrOperandMain(s: string, ls: LexState, m: Machine)
    requires ls.pos <= |s| && ls.buf != "" && Shape(m) && m.memSize < MEM_WORDS
    requires Read(s, ls).buf == ".ptr"
    requires var t := Read(s, Read(s, ls)).buf;
      t != "" && !IsHexToken(t) && '+' !in t && t in m.symbols && t != Label(ls.buf)
    ensures var ls2 := Read(s, Read(s, ls));
      var r := DataEntry(MainCpp, s, ls, m);
      r.Success? && r.value.0 == Read(s, ls2) && r.value.1.mem[m.memSize] == m.symbols[ls2.buf]
  {
    var ls2 := Read(s, Read(s, ls));
    assert PlusIndex(ls2.buf) == |ls2.buf|;
  }

  /** An instruction whose third operand is missing because the next token
      is on a new line (or there is none): the word at `mem_size` becomes
      `mem_size + 1`, a relocation, and the token is kept for the next
      instruction. */
  lemma ImplicitJump(s: string, ls: LexState, m: Machine)
    requires ls.pos <= |s| && ls.buf != "" && Shape(m) && m.memSize < MEM_WORDS
    requires ls.tokenLine != ls.lastTokenLine
    ensures var r := TextStep(s, ls, m, 2);
      r.Success? && r.value.0 == ls && r.value.2 == 0 &&
      r.value.1.memSize == m.memSize + 1 && r.value.1.mem[m.memSize] == m.memSize + 1 &&
      r.value.1.relatives == m.relatives + {m.memSize as u32}
  {
  }

  /** A label in the text section binds the name to `mem_size`, writes no
      word, leaves the operand counter as it was and, for `start:`, exports
      `start`. */
  lemma TextLabel(s: string, ls: LexState, m: Machine, field: nat)
    requires ls.pos <= |s| && ls.buf != "" && ls.buf[|ls.buf| - 1] == ':' && Shape(m) && field < 3
    requires !(field == 2 && ls.tokenLine != ls.lastTokenLine)
    ensures var r := TextStep(s, ls, m, field);
      r.Success? && r.value.0 == Read(s, ls) && r.value.2 == field &&
      r.value.1.memSize == m.memSize && r.value.1.mem == m.mem &&
      r.value.1.symbols == m.symbols[Label(ls.buf) := m.memSize as u32] &&
      r.value.1.references == m.references && r.value.1.relatives == m.relatives &&
      (forall n :: n in r.value.1.exported <==> n in m.exported || (ls.buf == "start:" && n == "start"))
  {
  }

  /** An operand token in the text section writes the value `parseField`
      gives it into the word at `mem_size`, moves `mem_size` on by one and
      the operand counter on modulo 3. */
  lemma TextOperand(s: string, ls: LexState, m: Machine, field: nat)
    requires ls.pos <= |s| && ls.buf != "" && ls.buf[|ls.buf| - 1] != ':' && Shape(m) && field < 3
    requires !(field == 2 && ls.tokenLine != ls.lastTokenLine)
    requires m.memSize < MEM_WORDS && ParseField(m, ls.buf).Success?
    ensures var r := TextStep(s, ls, m, field);
      var f := ParseField(m, ls.buf).value;
      r.Success? && r.value.2 == (field + 1) % 3 &&
      r.value.1.memSize == m.memSize + 1 && r.value.1.mem[m.memSize] == f.value &&
      r.value.1.mem[..m.memSize] == m.mem[..m.memSize] &&
      r.value.1.symbols == m.symbols && r.value.1.exported == m.exported
  {
  }

  /** At the end of input on the line of the last operand, no word is added. */
  lemma TextEnds(s: string, ls: LexState, m: Machine, field: nat)
    requires ls.pos <= |s| && Shape(m) && field < 3 && ls.buf == ""
    ensures TextSection(s, ls, m, field) == Success(m)
  {
  }

  lemma {:induction false} CardBelow(s: set<u32>, b: nat)
    requires forall a | a in s :: a < b
    ensures |s| <= b
    decreases b
  {
    if b > 0 {
      var top := b - 1;
      if x :| x in s && x == top {
        var rest := s - {x};
        assert forall a | a in rest :: a < top;
        CardBelow(rest, top);
      } else {
        CardBelow(s, top);
      }
    } else {
      assert s == {};
    }
  }

  /** The object file written for a run that keeps the invariant reads back
      as the same tables and code, provided no name holds a NUL and the
      name tables have fewer than 2^32 entries. */
  lemma ObjectOfRoundTrip(m: Machine)
    requires Inv(m) && |m.exported| < TWO32 && |m.references| < TWO32
    requires forall n | n in m.exported :: NulFree(n)
    requires forall n | n in m.references :: NulFree(n)
    ensures Decode32(ObjectBytes(m)) == Some(ObjectOf(m))
  {
    var o := ObjectOf(m);
    ObjectOfWritable(m);
    SortedStringsSpec(m.exported);
    SortedStringsSpec(m.references.Keys);
    CardBelow(m.relatives, m.memSize);
    forall i | 0 <= i < |o.pending|
      ensures |o.pending[i].1| < TWO32 && NulFree(o.pending[i].0)
    {
      var n := o.pending[i].0;
      assert n in Names(o.pending);
      CardBelow(m.references[n], m.memSize);
    }
    forall i | 0 <= i < |o.exports|
      ensures NulFree(o.exports[i].0)
    {
      assert o.exports[i].0 in Names(o.exports);
    }
    Decode32Encode32(o);
  }
}
