/** The 32-bit assembler of main.cpp and assembler32.cpp as the program runs
    it: one object holding the tokenizer, the word buffer and the tables,
    whose methods update them in place. Each method is proved to leave the
    object in the state the functions of Semantics32 compute, so the
    properties proved there hold of every run. */
module Assembler32 {
  import opened Wrappers
  import opened Words
  import opened Lexer
  import opened Literals
  import opened Ordering
  import opened ObjectFile
  import opened Sections
  import opened Writer
  import S = Semantics32

  /** `r` reports the step's outcome as `spec` does, and on success the
      state reached is `spec`'s. */
  ghost predicate Agrees<T>(r: Result<()>, spec: Result<T>, now: T) {
    r.Success? == spec.Success? &&
    (spec.Success? ==> now == spec.value) &&
    (spec.Failure? ==> r.error == spec.error)
  }

  class Assembler {
    const dialect: S.Dialect
    /** The input file and `readToken`'s globals. */
    const lex: Lexer
    /** `mem`: `MEM_WORDS` words, allocated without being cleared. */
    const mem: array<u32>
    /** What `mem` held when it was allocated. */
    ghost const image: seq<u32>
    var exported: set<string>
    var symbols: map<string, u32>
    var references: map<string, set<u32>>
    var relatives: set<u32>
    var memSize: nat

    ghost function Snapshot(): S.Machine
      reads this, mem
    {
      S.Machine(exported, symbols, references, relatives, memSize, mem[..])
    }

    ghost function Config(): (LexState, S.Machine)
      reads this, lex, mem
    {
      (lex.State(), Snapshot())
    }

    ghost predicate Valid()
      reads this, lex, mem
    {
      lex.Valid() && IsByteString(lex.input) && mem.Length == MEM_WORDS && memSize <= MEM_WORDS
    }

    /** The state `main` starts in: the input opened, `mem` allocated, the
        tables empty. */
    constructor (dialect: S.Dialect, input: string, image: seq<u32>)
      requires IsByteString(input) && |image| == MEM_WORDS
      ensures Valid() && this.dialect == dialect && lex.input == input && this.image == image
      ensures lex.State() == Start && Snapshot() == S.Initial(image)
    {
      this.dialect := dialect;
      this.image := image;
      lex := new Lexer(input);
      mem := new u32[MEM_WORDS](i => if 0 <= i < |image| then image[i] else 0);
      exported, symbols, references, relatives, memSize := {}, map[], map[], {}, 0;
      new;
      assert mem[..] == image;
    }

    /** `parseField`: the value of the operand in `buf` for the word at
        `mem_size`, recording the relocation and the pending reference. */
    method ParseField() returns (r: Result<u32>)
      requires Valid()
      modifies this`relatives, this`references, lex`buf
      ensures Valid()
      ensures var f := S.ParseField(old(Snapshot()), old(lex.buf));
        r.Success? == f.Success? &&
        (f.Success? ==> r.value == f.value.value && Snapshot() == f.value.m &&
                        lex.State() == old(lex.State()).(buf := f.value.buf)) &&
        (f.Failure? ==> r.error == f.error)
    {
      if IsHexToken(lex.buf) {
        r := S.ParseData(lex.buf);
      } else {
        relatives := relatives + {memSize as u32};
        var (name, offset) := S.SplitOffset(lex.buf);
        if offset.Some? {
          lex.buf := name;
        }
        var field := S.OffsetValue(offset);
        if name !in symbols {
          if field.Failure? {
            return field;
          }
          references := references[name := S.RefsOf(references, name) + {memSize as u32}];
          r := field;
        } else {
          r := Success(symbols[name]);
        }
      }
    }

    /** `mem[mem_size++] = v`. */
    method Write(v: u32) returns (r: Result<()>)
      requires Valid()
      modifies this`memSize, mem
      ensures Valid()
      ensures Agrees(r, S.Write(old(Snapshot()), v), Snapshot())
    {
      if memSize >= MEM_WORDS {
        return Failure(MemoryFull);
      }
      mem[memSize] := v;
      memSize := memSize + 1;
      r := Success(());
    }

    /** The export section: after `.export`, every token up to `.data`. */
    method ExportSection() returns (r: Result<()>)
      requires Valid()
      modifies this`exported, lex
      ensures Valid() && Snapshot() == old(Snapshot()).(exported := exported)
      ensures Agrees(r, Sections.ExportSection(lex.input, Read(lex.input, old(lex.State())), old(exported)), (lex.State(), exported))
    {
      lex.ReadToken();
      ghost var goal := Sections.ExportSection(lex.input, lex.State(), exported);
      while lex.buf != ".data"
        invariant Valid() && Sections.ExportSection(lex.input, lex.State(), exported) == goal
        invariant Snapshot() == old(Snapshot()).(exported := exported)
        decreases Remaining(lex.input, lex.State())
      {
        if lex.buf == "" {
          return Failure(Unterminated(".data"));
        }
        exported := exported + {lex.buf};
        lex.ReadToken();
      }
      r := Success(());
    }

    /** The values of an `.iarray`, read while they stay on one line. */
    method IArray() returns (r: Result<()>)
      requires Valid()
      modifies this`memSize, lex, mem
      ensures Valid()
      ensures Agrees(r, S.IArray(lex.input, Read(lex.input, old(lex.State())), old(Snapshot())), Config())
    {
      lex.ReadToken();
      ghost var goal := S.IArray(lex.input, lex.State(), Snapshot());
      while lex.currentTokenLine == lex.lastTokenLine
        invariant Valid() && S.IArray(lex.input, lex.State(), Snapshot()) == goal
        decreases Remaining(lex.input, lex.State())
      {
        if lex.buf == "" {
          return Failure(Unterminated(".text"));
        }
        var v := S.ParseData(lex.buf);
        if v.Failure? {
          return Failure(v.error);
        }
        r := Write(v.value);
        if r.Failure? {
          return;
        }
        lex.ReadToken();
      }
      r := Success(());
    }

    /** One entry of the data section, its label in `buf`. */
    method DataEntry() returns (r: Result<()>)
      requires Valid() && lex.buf != ""
      modifies this, lex, mem
      ensures Valid()
      ensures Agrees(r, S.DataEntry(dialect, lex.input, old(lex.State()), old(Snapshot())), Config())
    {
      symbols := symbols[Label(lex.buf) := memSize as u32];
      lex.ReadToken();
      if lex.buf == "" {
        r := Failure(Unterminated(".text"));
      } else if lex.buf == ".array" {
        r := ArrayEntry();
      } else if lex.buf == ".iarray" {
        r := IArray();
      } else if lex.buf == ".ptr" {
        r := PtrEntry();
      } else {
        r := WordEntry();
      }
    }

    /** `.array N`. */
    method ArrayEntry() returns (r: Result<()>)
      requires Valid() && lex.buf != ""
      modifies this`memSize, lex
      ensures Valid()
      ensures Agrees(r, S.ArrayEntry(lex.input, old(lex.State()), old(Snapshot())), Config())
    {
      lex.ReadToken();
      if lex.buf == "" {
        return Failure(Unterminated(".text"));
      }
      var n := S.ParseData(lex.buf);
      if n.Failure? {
        return Failure(n.error);
      }
      if memSize + n.value > MEM_WORDS {
        return Failure(MemoryFull);
      }
      memSize := memSize + n.value;
      lex.ReadToken();
      r := Success(());
    }

    /** `.ptr` and its operand. */
    method PtrEntry() returns (r: Result<()>)
      requires Valid() && lex.buf != ""
      modifies this`relatives, this`references, this`memSize, lex, mem
      ensures Valid()
      ensures Agrees(r, S.PtrEntry(dialect, lex.input, old(lex.State()), old(Snapshot())), Config())
    {
      if dialect == S.MainCpp {
        lex.ReadToken();
      }
      if lex.buf == "" {
        return Failure(Unterminated(".text"));
      }
      var v := ParseField();
      if v.Failure? {
        return Failure(v.error);
      }
      r := Write(v.value);
      if r.Failure? {
        return;
      }
      lex.ReadToken();
    }

    /** An initialised word. */
    method WordEntry() returns (r: Result<()>)
      requires Valid()
      modifies this`memSize, lex, mem
      ensures Valid()
      ensures Agrees(r, S.WordEntry(lex.input, old(lex.State()), old(Snapshot())), Config())
    {
      var v := S.ParseData(lex.buf);
      if v.Failure? {
        return Failure(v.error);
      }
      r := Write(v.value);
      if r.Failure? {
        return;
      }
      lex.ReadToken();
    }

    /** The data section: entries up to `.text`. */
    method DataSection() returns (r: Result<()>)
      requires Valid()
      modifies this, lex, mem
      ensures Valid()
      ensures Agrees(r, S.DataSection(dialect, lex.input, Read(lex.input, old(lex.State())), old(Snapshot())), Config())
    {
      lex.ReadToken();
      ghost var goal := S.DataSection(dialect, lex.input, lex.State(), Snapshot());
      while lex.buf != ".text"
        invariant Valid() && S.DataSection(dialect, lex.input, lex.State(), Snapshot()) == goal
        decreases Remaining(lex.input, lex.State())
      {
        if lex.buf == "" {
          return Failure(Unterminated(".text"));
        }
        r := DataEntry();
        if r.Failure? {
          return;
        }
      }
      r := Success(());
    }

    /** One turn of the text-section loop; `field` is the operand the next
        token fills. */
    method TextStep(field: nat) returns (r: Result<()>, next: nat)
      requires Valid() && lex.buf != "" && field < 3
      modifies this, lex, mem
      ensures Valid()
      ensures Agrees(r, S.TextStep(lex.input, old(lex.State()), old(Snapshot()), field), (lex.State(), Snapshot(), next))
    {
      if field == 2 && lex.currentTokenLine != lex.lastTokenLine {
        relatives := relatives + {memSize as u32};
        r := Write(memSize as u32 + 1);
        next := 0;
      } else if lex.buf[|lex.buf| - 1] == ':' {
        symbols := symbols[Label(lex.buf) := memSize as u32];
        if lex.buf == "start:" {
          exported := exported + {"start"};
        }
        lex.ReadToken();
        r, next := Success(()), field;
      } else {
        var v := ParseField();
        if v.Failure? {
          return Failure(v.error), field;
        }
        r := Write(v.value);
        if r.Failure? {
          return r, field;
        }
        next := (field + 1) % 3;
        lex.ReadToken();
      }
    }

    /** The text section: instructions until the input ends. */
    method TextSection() returns (r: Result<()>)
      requires Valid()
      modifies this, lex, mem
      ensures Valid()
      ensures Agrees(r, S.TextSection(lex.input, Read(lex.input, old(lex.State())), old(Snapshot()), 0), Snapshot())
    {
      var field := 0;
      lex.ReadToken();
      ghost var goal := S.TextSection(lex.input, lex.State(), Snapshot(), field);
      while lex.buf != ""
        invariant Valid() && field < 3 && S.TextSection(lex.input, lex.State(), Snapshot(), field) == goal
        decreases Remaining(lex.input, lex.State()), if field == 2 then 1 else 0
      {
        r, field := TextStep(field);
        if r.Failure? {
          return;
        }
      }
      r := Success(());
    }

    /** The resolution loop: the words pending on a name defined by now get
        its address added, and the name leaves the table. */
    method Resolve()
      requires Valid() && S.Inv(Snapshot())
      modifies this`references, mem
      ensures Valid() && Snapshot() == S.Resolve(old(Snapshot()))
    {
      ghost var m0 := Snapshot();
      references := ResolveWords(m0, mem, symbols, references);
    }

    /** The write block: the bytes of the object file. */
    method Emit() returns (out: seq<u8>)
      requires Valid() && S.ByteNames(Snapshot())
      ensures out == S.ObjectBytes(Snapshot())
    {
      ghost var m := Snapshot();
      var exportBlock := WriteExports(exported, symbols);
      var pendingBlock := WritePending(m, references);
      var relativeWords := WriteAddresses(relatives);
      var codeBytes := Words32(mem[..memSize]);
      out := exportBlock + (pendingBlock + (Le32(Wrap32(|relatives|)) + relativeWords + (Le32(memSize) + codeBytes)));
    }

    /** `main` after opening the input: the three sections. */
    method Parse() returns (r: Result<()>)
      requires Valid() && lex.State() == Start && Snapshot() == S.Initial(image) && |image| == MEM_WORDS
      modifies this, lex, mem
      ensures Valid()
      ensures Agrees(r, S.Parse(dialect, lex.input, image), Snapshot())
    {
      lex.ReadToken();
      r := ExportSection();
      if r.Failure? {
        return;
      }
      r := DataSection();
      if r.Failure? {
        return;
      }
      r := TextSection();
    }

    /** `main` after opening the input: the three sections, resolution and
        the write block. */
    method Run() returns (r: Result<seq<u8>>)
      requires Valid() && lex.State() == Start && Snapshot() == S.Initial(image) && |image| == MEM_WORDS
      modifies this, lex, mem
      ensures r == S.Output(dialect, lex.input, image)
    {
      var p := Parse();
      if p.Failure? {
        return Failure(p.error);
      }
      S.ParseKeeps(dialect, lex.input, image);
      Resolve();
      var bytes := Emit();
      r := Success(bytes);
    }
  }

  /** The resolution loop over the word buffer: every name of the table is
      visited once; the pending sets are disjoint, so the order of the
      visits does not matter. Returns the names that stay pending. */
  method ResolveWords(ghost m0: S.Machine, mem: array<u32>, symbols: map<string, u32>, references: map<string, set<u32>>)
    returns (pending: map<string, set<u32>>)
    requires S.Inv(m0) && mem[..] == m0.mem && symbols == m0.symbols && references == m0.references
    modifies mem
    ensures mem[..] == S.Resolve(m0).mem && pending == S.Resolve(m0).references
  {
    pending := references;
    var names := references.Keys;
    while names != {}
      invariant names <= m0.references.Keys && mem.Length == MEM_WORDS
      invariant pending == Unvisited(m0, names)
      invariant forall a | 0 <= a < MEM_WORDS :: mem[a] == Patched(m0, names, a)
      decreases |names|
    {
      var name :| name in names;
      pending := VisitName(m0, mem, names, name, symbols, pending);
      names := names - {name};
    }
    assert mem[..] == S.Resolve(m0).mem;
    assert pending == S.Resolve(m0).references;
  }

  /** One iteration of the resolution loop: if `name` is defined, its
      pending words get its address and it leaves the table. */
  method VisitName(ghost m0: S.Machine, mem: array<u32>, ghost names: set<string>, name: string,
                   symbols: map<string, u32>, pending: map<string, set<u32>>)
    returns (pending': map<string, set<u32>>)
    requires S.Inv(m0) && symbols == m0.symbols && name in names && names <= m0.references.Keys
    requires mem.Length == MEM_WORDS && pending == Unvisited(m0, names)
    requires forall a | 0 <= a < MEM_WORDS :: mem[a] == Patched(m0, names, a)
    modifies mem
    ensures pending' == Unvisited(m0, names - {name})
    ensures forall a | 0 <= a < MEM_WORDS :: mem[a] == Patched(m0, names - {name}, a)
  {
    pending' := pending;
    if name in symbols {
      assert pending[name] == m0.references[name];
      forall a | a in pending[name]
        ensures a < MEM_WORDS
      {
        S.OwnerIs(m0, name, a);
      }
      AddToWords(mem, pending[name], symbols[name]);
      pending' := pending - {name};
    }
    forall a | 0 <= a < MEM_WORDS
      ensures mem[a] == Patched(m0, names - {name}, a)
    {
      Visit(m0, names, name, a);
    }
    UnvisitedStep(m0, names, name);
  }

  /** `mem[*it] += sym->second` for every address of one pending name. */
  method AddToWords(mem: array<u32>, addrs: set<u32>, address: u32)
    requires mem.Length == MEM_WORDS && forall a | a in addrs :: a < MEM_WORDS
    modifies mem
    ensures forall a | 0 <= a < mem.Length ::
      mem[a] == if a as u32 in addrs then Wrap32(old(mem[a]) as int + address as int) else old(mem[a])
  {
    var todo := addrs;
    while todo != {}
      invariant todo <= addrs
      invariant forall a | 0 <= a < mem.Length ::
        mem[a] == if a as u32 in addrs - todo then Wrap32(old(mem[a]) as int + address as int) else old(mem[a])
      decreases |todo|
    {
      var a :| a in todo;
      mem[a] := Wrap32(mem[a] as int + address as int);
      todo := todo - {a};
    }
  }

  /** The pending names, each with its words. */
  method WritePending(ghost m: S.Machine, references: map<string, set<u32>>) returns (out: seq<u8>)
    requires S.Shape(m) && S.ByteNames(m) && references == m.references
    ensures out == S.PendingPart(m)
  {
    var names := SortedNames(references.Keys);
    SortedStringsSpec(references.Keys);
    AllByteStrings(names, references.Keys);
    var entries: seq<u8> := [];
    for i := 0 to |names|
      invariant entries == S.PendingEntries(m, names[..i])
    {
      var name := names[i];
      assert name in references;
      var words := WriteAddresses(references[name]);
      S.PendingEntriesStep(m, names, i);
      entries := entries + (CString(name) + Le32(Wrap32(|references[name]|)) + words);
    }
    assert names[..|names|] == names;
    S.PendingPartIs(m, names);
    out := Le32(Wrap32(|references|)) + entries;
  }

  /** The pending table while the names in `pending` are still to be visited. */
  ghost function Unvisited(m: S.Machine, pending: set<string>): map<string, set<u32>> {
    map n | n in m.references && (n in pending || n !in m.symbols) :: m.references[n]
  }

  lemma UnvisitedStep(m: S.Machine, names: set<string>, name: string)
    ensures Unvisited(m, names - {name}) ==
      if name in m.symbols then Unvisited(m, names) - {name} else Unvisited(m, names)
  {
    var l := Unvisited(m, names - {name});
    var r := if name in m.symbols then Unvisited(m, names) - {name} else Unvisited(m, names);
    assert l.Keys == r.Keys;
  }

  /** The word at `a` while the names in `pending` are still to be visited. */
  ghost function Patched(m: S.Machine, pending: set<string>, a: nat): u32
    requires S.Shape(m) && a < MEM_WORDS
  {
    var o := S.Owner(m, a as u32);
    if o.Some? && o.value !in pending then S.ResolvedWord(m, a) else m.mem[a]
  }

  /** Visiting `name` patches exactly the words pending on it, if it is defined. */
  lemma Visit(m: S.Machine, names: set<string>, name: string, a: nat)
    requires S.Inv(m) && a < MEM_WORDS && name in names
    ensures Patched(m, names - {name}, a) ==
      if name in m.symbols && name in m.references && a as u32 in m.references[name]
      then Wrap32(Patched(m, names, a) as int + m.symbols[name] as int)
      else Patched(m, names, a)
  {
    var o := S.Owner(m, a as u32);
    if name in m.symbols && name in m.references && a as u32 in m.references[name] {
      S.OwnerIs(m, name, a as u32);
    }
  }
}
