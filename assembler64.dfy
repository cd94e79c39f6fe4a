/** The 64-bit assembler of assembler64.cpp as the program runs it: one
    object holding the tokenizer, the word buffer and the tables, whose
    methods update them in place. Each method is proved to leave the object
    in the state the functions of Semantics64 compute, so the properties
    proved there hold of every run. */
module Assembler64 {
  import opened Wrappers
  import opened Words
  import opened Bitwise
  import opened Lexer
  import opened Literals
  import opened Ordering
  import opened ObjectFile
  import opened Sections
  import opened Writer
  import S = Semantics64

  /** `r` reports the step's outcome as `spec` does, and on success the
      state reached is `spec`'s. */
  ghost predicate Agrees<T>(r: Result<()>, spec: Result<T>, now: T) {
    r.Success? == spec.Success? &&
    (spec.Success? ==> now == spec.value) &&
    (spec.Failure? ==> r.error == spec.error)
  }

  class Assembler {
    /** The input file and `readToken`'s globals. */
    const lex: Lexer
    /** `mem`: `MEM_WORDS` words, allocated without being cleared. */
    const mem: array<u64>
    /** What `mem` held when it was allocated. */
    ghost const image: seq<u64>
    var exported: set<string>
    var symbols: map<string, u32>
    var references: map<string, seq<Slot>>
    var absolute: seq<Slot>
    var memSize: nat
    var textOffset: u32

    ghost function Snapshot(): S.Machine
      reads this, mem
    {
      S.Machine(exported, symbols, references, absolute, memSize, mem[..], textOffset)
    }

    ghost function Config(): (LexState, S.Machine)
      reads this, lex, mem
    {
      (lex.State(), Snapshot())
    }

    ghost predicate Valid()
      reads this, lex, mem
    {
      lex.Valid() && IsByteString(lex.input) && mem.Length == MEM_WORDS && memSize <= MEM_WORDS
    }

    /** The state `assembler64` starts in: the input opened, `mem`
        allocated, the tables empty. */
    constructor (input: string, image: seq<u64>)
      requires IsByteString(input) && |image| == MEM_WORDS
      ensures Valid() && lex.input == input && this.image == image
      ensures lex.State() == Start && Snapshot() == S.Initial(image)
    {
      this.image := image;
      lex := new Lexer(input);
      mem := new u64[MEM_WORDS](i => if 0 <= i < |image| then image[i] else 0);
      exported, symbols, references, absolute, memSize, textOffset := {}, map[], map[], [], 0, 0;
      new;
      assert mem[..] == image;
    }

    /** `readField(instr, field)`: ORs the operand in `buf` into `instr`
        for the word at `mem_size`, recording where it goes. */
    method ReadField(f: Field, instr: u64) returns (r: Result<u64>)
      requires Valid()
      modifies this`absolute, this`references
      ensures Valid()
      ensures var spec := S.ReadField(old(Snapshot()), lex.buf, f, instr);
        r.Success? == spec.Success? &&
        (spec.Success? ==> r.value == spec.value.instr && Snapshot() == spec.value.m) &&
        (spec.Failure? ==> r.error == spec.error)
    {
      var slot: Slot := (memSize as u32, f);
      if IsHexToken(lex.buf) {
        var v := S.ParseAddress(lex.buf);
        if v.Failure? {
          return Failure(v.error);
        }
        absolute := absolute + [slot];
        r := Success(Or(instr, S.PlaceHex(v.value, f)));
      } else if lex.buf in symbols {
        r := Success(Or(instr, S.Place(symbols[lex.buf], f)));
      } else {
        references := references[lex.buf := S.SlotsOf(references, lex.buf) + [slot]];
        r := Success(instr);
      }
    }

    /** `mem[mem_size++] = w`. */
    method Write(w: u64) returns (r: Result<()>)
      requires Valid()
      modifies this`memSize, mem
      ensures Valid()
      ensures Agrees(r, S.Write(old(Snapshot()), w), Snapshot())
    {
      if memSize >= MEM_WORDS {
        return Failure(MemoryFull);
      }
      mem[memSize] := w;
      memSize := memSize + 1;
      r := Success(());
    }

    /** The export section: after `.export`, every token up to `.data`. */
    method ExportSection() returns (r: Result<()>)
      requires Valid()
      modifies this`exported, lex
      ensures Valid() && Snapshot() == old(Snapshot()).(exported := exported)
      ensures Agrees(r, Sections.ExportSection(lex.input, Read(lex.input, old(lex.State())), old(exported)), (lex.State(), exported))
    {
      lex.ReadToken();
      ghost var goal := Sections.ExportSection(lex.input, lex.State(), exported);
      while lex.buf != ".data"
        invariant Valid() && Sections.ExportSection(lex.input, lex.State(), exported) == goal
        invariant Snapshot() == old(Snapshot()).(exported := exported)
        decreases Remaining(lex.input, lex.State())
      {
        if lex.buf == "" {
          return Failure(Unterminated(".data"));
        }
        exported := exported + {lex.buf};
        lex.ReadToken();
      }
      r := Success(());
    }

    /** One entry of the data section, its label in `buf`. */
    method DataEntry() returns (r: Result<()>)
      requires Valid() && lex.buf != ""
      modifies this`symbols, this`memSize, lex, mem
      ensures Valid()
      ensures Agrees(r, S.DataEntry(lex.input, old(lex.State()), old(Snapshot())), Config())
    {
      symbols := symbols[Label(lex.buf) := memSize as u32];
      lex.ReadToken();
      if lex.buf == "" {
        return Failure(Unterminated(".text"));
      }
      var v := S.ParseWord(lex.buf);
      if v.Failure? {
        return Failure(v.error);
      }
      r := Write(v.value);
      if r.Failure? {
        return;
      }
      lex.ReadToken();
    }

    /** The data section: entries up to `.text`. */
    method DataSection() returns (r: Result<()>)
      requires Valid()
      modifies this`symbols, this`memSize, lex, mem
      ensures Valid()
      ensures Agrees(r, S.DataSection(lex.input, Read(lex.input, old(lex.State())), old(Snapshot())), Config())
    {
      lex.ReadToken();
      ghost var goal := S.DataSection(lex.input, lex.State(), Snapshot());
      while lex.buf != ".text"
        invariant Valid() && S.DataSection(lex.input, lex.State(), Snapshot()) == goal
        decreases Remaining(lex.input, lex.State())
      {
        if lex.buf == "" {
          return Failure(Unterminated(".text"));
        }
        r := DataEntry();
        if r.Failure? {
          return;
        }
      }
      r := Success(());
    }

    /** The A and B operands of an instruction, then the token after B. */
    method Operands() returns (r: Result<u64>)
      requires Valid() && lex.buf != ""
      modifies this`references, this`absolute, lex
      ensures Valid()
      ensures var spec := S.Operands(lex.input, old(lex.State()), old(Snapshot()));
        r.Success? == spec.Success? &&
        (spec.Success? ==> lex.State() == spec.value.0 && Snapshot() == spec.value.1.m && r.value == spec.value.1.instr) &&
        (spec.Failure? ==> r.error == spec.error)
    {
      var instr := ReadField(A, 0);
      if instr.Failure? {
        return instr;
      }
      lex.ReadToken();
      r := ReadField(B, instr.value);
      if r.Failure? {
        return;
      }
      lex.ReadToken();
    }

    /** One turn of the text-section loop: a label, or one instruction
        whose J operand may be left out. */
    method TextStep() returns (r: Result<()>)
      requires Valid() && lex.buf != ""
      modifies this`symbols, this`exported, this`references, this`absolute, this`memSize, lex, mem
      ensures Valid()
      ensures Agrees(r, S.TextStep(lex.input, old(lex.State()), old(Snapshot())), Config())
    {
      if lex.buf[|lex.buf| - 1] == ':' {
        symbols := symbols[Label(lex.buf) := memSize as u32];
        if lex.buf == "start:" {
          exported := exported + {"start"};
        }
        lex.ReadToken();
        return Success(());
      }
      var instr := Operands();
      if instr.Failure? {
        return Failure(instr.error);
      }
      if lex.currentTokenLine != lex.lastTokenLine || lex.buf == "" {
        r := Write(Or(instr.value, memSize + 1));
        return;
      }
      var word := ReadField(J, instr.value);
      if word.Failure? {
        return Failure(word.error);
      }
      lex.ReadToken();
      r := Write(word.value);
    }

    /** The text section: instructions until the input ends. */
    method TextSection() returns (r: Result<()>)
      requires Valid()
      modifies this`symbols, this`exported, this`references, this`absolute, this`memSize, lex, mem
      ensures Valid()
      ensures Agrees(r, S.TextSection(lex.input, Read(lex.input, old(lex.State())), old(Snapshot())), Snapshot())
    {
      lex.ReadToken();
      ghost var goal := S.TextSection(lex.input, lex.State(), Snapshot());
      while lex.buf != ""
        invariant Valid() && S.TextSection(lex.input, lex.State(), Snapshot()) == goal
        decreases Remaining(lex.input, lex.State())
      {
        r := TextStep();
        if r.Failure? {
          return;
        }
      }
      r := Success(());
    }

    /** The resolution loop: the fields pending on a name defined by now get
        its address ORed in, and the name leaves the table. */
    method Resolve()
      requires Valid() && S.Inv(Snapshot())
      modifies this`references, mem
      ensures Valid() && Snapshot() == S.Resolve(old(Snapshot()))
    {
      ghost var m0 := Snapshot();
      references := ResolveSlots(m0, mem, symbols, references);
    }

    /** The write block: the bytes of the object file. */
    method Emit() returns (out: seq<u8>)
      requires Valid() && S.ByteNames(Snapshot())
      ensures out == S.ObjectBytes(Snapshot())
    {
      ghost var m := Snapshot();
      S.ObjectOfWritable(m);
      var exportBlock := WriteExports(exported, symbols);
      var pendingBlock := WritePending(m, references);
      var absoluteSlots := WriteSlots(absolute);
      var codeBytes := Words64(mem[..memSize]);
      out := Le32(textOffset) + (exportBlock + (pendingBlock +
        (Le32(Wrap32(|absolute|)) + absoluteSlots + (Le32(memSize as u32) + codeBytes))));
    }

    /** `assembler64` after opening the input: the three sections, with
        `text_offset` set between the data and the text section. */
    method Parse() returns (r: Result<()>)
      requires Valid() && lex.State() == Start && Snapshot() == S.Initial(image) && |image| == MEM_WORDS
      modifies this, lex, mem
      ensures Valid()
      ensures Agrees(r, S.Parse(lex.input, image), Snapshot())
    {
      lex.ReadToken();
      r := ExportSection();
      if r.Failure? {
        return;
      }
      r := DataSection();
      if r.Failure? {
        return;
      }
      textOffset := memSize as u32;
      r := TextSection();
    }

    /** `assembler64` after opening the input: the three sections,
        resolution and the write block. */
    method Run() returns (r: Result<seq<u8>>)
      requires Valid() && lex.State() == Start && Snapshot() == S.Initial(image) && |image| == MEM_WORDS
      modifies this, lex, mem
      ensures r == S.Output(lex.input, image)
    {
      var p := Parse();
      if p.Failure? {
        return Failure(p.error);
      }
      S.ParseKeeps(lex.input, image);
      Resolve();
      var bytes := Emit();
      r := Success(bytes);
    }
  }

  /** The resolution loop over the word buffer: the names of the table in
      `std::map` order, each defined one patched and erased. Returns the
      names that stay pending. */
  method ResolveSlots(ghost m0: S.Machine, mem: array<u64>, symbols: map<string, u32>, references: map<string, seq<Slot>>)
    returns (pending: map<string, seq<Slot>>)
    requires S.Inv(m0) && mem[..] == m0.mem && symbols == m0.symbols && references == m0.references
    modifies mem
    ensures mem[..] == S.Resolve(m0).mem && pending == S.Resolve(m0).references
  {
    var names := SortedNames(references.Keys);
    ResolvedAll(m0, names);
    pending := references;
    for i := 0 to |names|
      invariant mem.Length == MEM_WORDS
      invariant mem[..] == S.ResolveNames(m0, names[..i])
      invariant pending == Unvisited(m0, names[..i])
    {
      ResolvablePrefix(m0, names, i);
      pending := VisitName(m0, mem, names[..i], names[i], symbols, references, pending);
    }
    assert names[..|names|] == names;
  }

  /** The whole loop over the table's names computes the resolved state. */
  lemma ResolvedAll(m0: S.Machine, names: seq<string>)
    requires S.Inv(m0) && names == SortedStrings(m0.references.Keys)
    ensures S.Resolvable(m0, names) && Unvisited(m0, []) == m0.references
    ensures S.Resolve(m0).mem == S.ResolveNames(m0, names)
    ensures S.Resolve(m0).references == Unvisited(m0, names)
  {
    SortedStringsSpec(m0.references.Keys);
    assert Unvisited(m0, names).Keys == S.Resolve(m0).references.Keys;
  }

  lemma ResolvablePrefix(m0: S.Machine, names: seq<string>, i: nat)
    requires S.Resolvable(m0, names) && i < |names|
    ensures S.Resolvable(m0, names[..i]) && names[..i] + [names[i]] == names[..i + 1]
    ensures S.Resolvable(m0, names[..i + 1])
  {
    assert names[..i] + [names[i]] == names[..i + 1];
  }

  /** One turn of the resolution loop: a defined name has its fields
      patched and is erased; an undefined one is passed over. */
  method VisitName(ghost m0: S.Machine, mem: array<u64>, ghost visited: seq<string>, name: string,
                   symbols: map<string, u32>, references: map<string, seq<Slot>>,
                   pending: map<string, seq<Slot>>)
    returns (pending': map<string, seq<Slot>>)
    requires symbols == m0.symbols && references == m0.references
    requires S.Resolvable(m0, visited) && S.Resolvable(m0, visited + [name])
    requires mem.Length == MEM_WORDS && mem[..] == S.ResolveNames(m0, visited)
    requires pending == Unvisited(m0, visited)
    modifies mem
    ensures mem[..] == S.ResolveNames(m0, visited + [name])
    ensures pending' == Unvisited(m0, visited + [name])
  {
    var names := visited + [name];
    assert names[..|names| - 1] == visited && names[|names| - 1] == name;
    assert name in references;
    pending' := pending;
    if name in symbols {
      PatchSlots(mem, references[name], symbols[name]);
      pending' := pending - {name};
    }
    UnvisitedStep(m0, visited, name);
  }

  /** The inner resolution loop: `instr |= uword_t(address) << mult*ADDRESS_WIDTH`
      for every `(address, field)` of one name, in list order. */
  method PatchSlots(mem: array<u64>, slots: seq<Slot>, v: u32)
    requires mem.Length == MEM_WORDS && S.InRange(slots)
    modifies mem
    ensures mem[..] == S.Patch(old(mem[..]), slots, v)
  {
    ghost var start := mem[..];
    for k := 0 to |slots|
      invariant mem[..] == S.Patch(start, slots[..k], v)
    {
      var (a, f) := slots[k];
      assert slots[..k + 1][..k] == slots[..k];
      mem[a] := Or(mem[a], S.Place(v, f));
    }
    assert slots[..|slots|] == slots;
  }

  /** The pending table once the names in `visited` have been visited. */
  ghost function Unvisited(m: S.Machine, visited: seq<string>): map<string, seq<Slot>> {
    map n | n in m.references && (n !in m.symbols || n !in visited) :: m.references[n]
  }

  /** Visiting a defined name erases it; visiting an undefined one does not. */
  lemma UnvisitedStep(m: S.Machine, visited: seq<string>, name: string)
    ensures Unvisited(m, visited + [name]) ==
      if name in m.symbols then Unvisited(m, visited) - {name} else Unvisited(m, visited)
  {
    var l := Unvisited(m, visited + [name]);
    var r := if name in m.symbols then Unvisited(m, visited) - {name} else Unvisited(m, visited);
    assert l.Keys == r.Keys;
  }

  /** `(address, field)` pairs, eight bytes each. */
  method WriteSlots(ss: seq<Slot>) returns (out: seq<u8>)
    ensures out == Slots(ss)
  {
    out := [];
    for i := 0 to |ss|
      invariant out == Slots(ss[..i])
    {
      assert ss[..i + 1] == ss[..i] + [ss[i]];
      SlotsAppend(ss[..i], ss[i]);
      out := out + (Le32(ss[i].0) + Le32(FieldIndex(ss[i].1)));
    }
    assert ss[..|ss|] == ss;
  }

  /** The pending names, each with its `(address, field)` list. */
  method WritePending(ghost m: S.Machine, references: map<string, seq<Slot>>) returns (out: seq<u8>)
    requires S.Shape(m) && S.ByteNames(m) && references == m.references
    ensures out == S.PendingPart(m)
  {
    var names := SortedNames(references.Keys);
    SortedStringsSpec(references.Keys);
    AllByteStrings(names, references.Keys);
    var entries: seq<u8> := [];
    for i := 0 to |names|
      invariant entries == S.PendingEntries(m, names[..i])
    {
      var name := names[i];
      assert name in references;
      var slots := references[name];
      var pairs := WriteSlots(slots);
      S.PendingEntriesStep(m, names, i);
      entries := entries + (CString(name) + Le32(Wrap32(|slots|)) + pairs);
    }
    assert names[..|names|] == names;
    S.PendingPartIs(m, names);
    out := Le32(Wrap32(|references|)) + entries;
  }
}
