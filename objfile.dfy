/** The two object-file layouts the assemblers write: the 32-bit one of
    main.cpp and assembler32.cpp, and the 64-bit one of assembler64.cpp.
    Every integer is written with `f.write` of its in-memory bytes, which
    this model fixes as little-endian; names are written with their NUL.
    Each layout has a reader, and the round-trip lemmas show that the reader
    recovers every object the writer can produce. */
module ObjectFile {
  import opened Wrappers
  import opened Words

  /** The contents of a 32-bit object file, in the order they are written. */
  datatype Object32 = Object32(
    exports: seq<(string, u32)>,          // exported name, its address
    pending: seq<(string, seq<u32>)>,     // unresolved name, the words that need it
    relatives: seq<u32>,                  // words holding a relocatable address
    code: seq<u32>)                       // mem[0..mem_size)

  /** An `(address, field)` pair of the 64-bit layout. */
  type Slot = (u32, Field)

  /** The contents of a 64-bit object file, in the order they are written. */
  datatype Object64 = Object64(
    textOffset: u32,
    exports: seq<(string, u32)>,
    pending: seq<(string, seq<Slot>)>,
    absolute: seq<Slot>,
    code: seq<u64>)

  /** What a writer needs: names made of bytes. A count is written as its
      `uint32_t` value, so a table of 2^32 entries or more is miscounted. */
  predicate Writable32(o: Object32) {
    (forall i | 0 <= i < |o.exports| :: IsByteString(o.exports[i].0)) &&
    (forall i | 0 <= i < |o.pending| :: IsByteString(o.pending[i].0))
  }

  /** What a reader needs to get the object back: in addition, no name holds
      a NUL and every count fits its 4-byte field. */
  predicate Readable32(o: Object32) {
    Writable32(o) &&
    |o.exports| < TWO32 && |o.pending| < TWO32 && |o.relatives| < TWO32 && |o.code| < TWO32 &&
    (forall i | 0 <= i < |o.exports| :: NulFree(o.exports[i].0)) &&
    (forall i | 0 <= i < |o.pending| :: NulFree(o.pending[i].0) && |o.pending[i].1| < TWO32)
  }

  predicate Writable64(o: Object64) {
    (forall i | 0 <= i < |o.exports| :: IsByteString(o.exports[i].0)) &&
    (forall i | 0 <= i < |o.pending| :: IsByteString(o.pending[i].0))
  }

  predicate Readable64(o: Object64) {
    Writable64(o) &&
    |o.exports| < TWO32 && |o.pending| < TWO32 && |o.absolute| < TWO32 && |o.code| < TWO32 &&
    (forall i | 0 <= i < |o.exports| :: NulFree(o.exports[i].0)) &&
    (forall i | 0 <= i < |o.pending| :: NulFree(o.pending[i].0) && |o.pending[i].1| < TWO32)
  }

  // ---- writers --------------------------------------------------------

  function Words32(ws: seq<u32>): (b: seq<u8>)
    ensures |b| == 4 * |ws|
  {
    if ws == [] then [] else Le32(ws[0]) + Words32(ws[1..])
  }

  function Words64(ws: seq<u64>): (b: seq<u8>)
    ensures |b| == 8 * |ws|
  {
    if ws == [] then [] else Le64(ws[0]) + Words64(ws[1..])
  }

  /** An `(address, field)` pair: two 4-byte integers. */
  function SlotBytes(sl: Slot): (b: seq<u8>)
    ensures |b| == 8
  {
    Le32(sl.0) + Le32(FieldIndex(sl.1))
  }

  function Slots(ss: seq<Slot>): (b: seq<u8>)
    ensures |b| == 8 * |ss|
  {
    if ss == [] then [] else SlotBytes(ss[0]) + Slots(ss[1..])
  }

  /** One export: the name with its NUL, then its address. */
  function ExportBytes(e: (string, u32)): seq<u8>
    requires IsByteString(e.0)
  {
    CString(e.0) + Le32(e.1)
  }

  function Exports(es: seq<(string, u32)>): seq<u8>
    requires forall i | 0 <= i < |es| :: IsByteString(es[i].0)
  {
    if es == [] then [] else ExportBytes(es[0]) + Exports(es[1..])
  }

  /** One pending name: the name with its NUL, the number of its words, the words. */
  function Pending32Bytes(p: (string, seq<u32>)): seq<u8>
    requires IsByteString(p.0)
  {
    CString(p.0) + Le32(Wrap32(|p.1|)) + Words32(p.1)
  }

  function Pending32(ps: seq<(string, seq<u32>)>): seq<u8>
    requires forall i | 0 <= i < |ps| :: IsByteString(ps[i].0)
  {
    if ps == [] then [] else Pending32Bytes(ps[0]) + Pending32(ps[1..])
  }

  /** One pending name of the 64-bit layout: its `(address, field)` pairs. */
  function Pending64Bytes(p: (string, seq<Slot>)): seq<u8>
    requires IsByteString(p.0)
  {
    CString(p.0) + Le32(Wrap32(|p.1|)) + Slots(p.1)
  }

  function Pending64(ps: seq<(string, seq<Slot>)>): seq<u8>
    requires forall i | 0 <= i < |ps| :: IsByteString(ps[i].0)
  {
    if ps == [] then [] else Pending64Bytes(ps[0]) + Pending64(ps[1..])
  }

  /** Each table is written as its size in 4 bytes followed by its items. */
  function ExportsBlock(es: seq<(string, u32)>): seq<u8>
    requires forall i | 0 <= i < |es| :: IsByteString(es[i].0)
  {
    Le32(Wrap32(|es|)) + Exports(es)
  }

  function Pending32Block(ps: seq<(string, seq<u32>)>): seq<u8>
    requires forall i | 0 <= i < |ps| :: IsByteString(ps[i].0)
  {
    Le32(Wrap32(|ps|)) + Pending32(ps)
  }

  function Pending64Block(ps: seq<(string, seq<Slot>)>): seq<u8>
    requires forall i | 0 <= i < |ps| :: IsByteString(ps[i].0)
  {
    Le32(Wrap32(|ps|)) + Pending64(ps)
  }

  function Words32Block(ws: seq<u32>): seq<u8>
  {
    Le32(Wrap32(|ws|)) + Words32(ws)
  }

  function Words64Block(ws: seq<u64>): seq<u8>
  {
    Le32(Wrap32(|ws|)) + Words64(ws)
  }

  function SlotsBlock(ss: seq<Slot>): seq<u8>
  {
    Le32(Wrap32(|ss|)) + Slots(ss)
  }

  /** The object-file write block of main.cpp and assembler32.cpp. */
  function Encode32(o: Object32): seq<u8>
    requires Writable32(o)
  {
    ExportsBlock(o.exports) + (Pending32Block(o.pending) +
    (Words32Block(o.relatives) + Words32Block(o.code)))
  }

  /** The object-file write block of assembler64.cpp. */
  function Encode64(o: Object64): seq<u8>
    requires Writable64(o)
  {
    Le32(o.textOffset) + (ExportsBlock(o.exports) + (Pending64Block(o.pending) +
    (SlotsBlock(o.absolute) + Words64Block(o.code))))
  }

  // ---- readers --------------------------------------------------------

  function GetWords32(n: nat, b: seq<u8>): Option<(seq<u32>, seq<u8>)>
  {
    if n == 0 then Some(([], b))
    else
      var (w, b1) :- GetU32(b);
      var (ws, b2) :- GetWords32(n - 1, b1);
      Some(([w] + ws, b2))
  }

  function GetWords64(n: nat, b: seq<u8>): Option<(seq<u64>, seq<u8>)>
  {
    if n == 0 then Some(([], b))
    else
      var (w, b1) :- GetU64(b);
      var (ws, b2) :- GetWords64(n - 1, b1);
      Some(([w] + ws, b2))
  }

  function GetSlot(b: seq<u8>): Option<(Slot, seq<u8>)>
  {
    var (a, b1) :- GetU32(b);
    var (f, b2) :- GetU32(b1);
    var field :- FieldOfIndex(f);
    Some(((a, field), b2))
  }

  function GetSlots(n: nat, b: seq<u8>): Option<(seq<Slot>, seq<u8>)>
  {
    if n == 0 then Some(([], b))
    else
      var (sl, b1) :- GetSlot(b);
      var (ss, b2) :- GetSlots(n - 1, b1);
      Some(([sl] + ss, b2))
  }

  function GetExport(b: seq<u8>): Option<((string, u32), seq<u8>)>
  {
    var (name, b1) :- GetCString(b);
    var (addr, b2) :- GetU32(b1);
    Some(((name, addr), b2))
  }

  function GetExports(n: nat, b: seq<u8>): Option<(seq<(string, u32)>, seq<u8>)>
  {
    if n == 0 then Some(([], b))
    else
      var (e, b1) :- GetExport(b);
      var (es, b2) :- GetExports(n - 1, b1);
      Some(([e] + es, b2))
  }

  function GetPending32Entry(b: seq<u8>): Option<((string, seq<u32>), seq<u8>)>
  {
    var (name, b1) :- GetCString(b);
    var (k, b2) :- GetU32(b1);
    var (ws, b3) :- GetWords32(k, b2);
    Some(((name, ws), b3))
  }

  function GetPending32(n: nat, b: seq<u8>): Option<(seq<(string, seq<u32>)>, seq<u8>)>
  {
    if n == 0 then Some(([], b))
    else
      var (p, b1) :- GetPending32Entry(b);
      var (ps, b2) :- GetPending32(n - 1, b1);
      Some(([p] + ps, b2))
  }

  function GetPending64Entry(b: seq<u8>): Option<((string, seq<Slot>), seq<u8>)>
  {
    var (name, b1) :- GetCString(b);
    var (k, b2) :- GetU32(b1);
    var (ss, b3) :- GetSlots(k, b2);
    Some(((name, ss), b3))
  }

  function GetPending64(n: nat, b: seq<u8>): Option<(seq<(string, seq<Slot>)>, seq<u8>)>
  {
    if n == 0 then Some(([], b))
    else
      var (p, b1) :- GetPending64Entry(b);
      var (ps, b2) :- GetPending64(n - 1, b1);
      Some(([p] + ps, b2))
  }

  /** A count followed by that many items, for each kind of item. */
  function GetCountedExports(b: seq<u8>): Option<(seq<(string, u32)>, seq<u8>)>
  {
    var (n, b1) :- GetU32(b);
    GetExports(n, b1)
  }

  function GetCountedPending32(b: seq<u8>): Option<(seq<(string, seq<u32>)>, seq<u8>)>
  {
    var (n, b1) :- GetU32(b);
    GetPending32(n, b1)
  }

  function GetCountedPending64(b: seq<u8>): Option<(seq<(string, seq<Slot>)>, seq<u8>)>
  {
    var (n, b1) :- GetU32(b);
    GetPending64(n, b1)
  }

  function GetCountedWords32(b: seq<u8>): Option<(seq<u32>, seq<u8>)>
  {
    var (n, b1) :- GetU32(b);
    GetWords32(n, b1)
  }

  function GetCountedWords64(b: seq<u8>): Option<(seq<u64>, seq<u8>)>
  {
    var (n, b1) :- GetU32(b);
    GetWords64(n, b1)
  }

  function GetCountedSlots(b: seq<u8>): Option<(seq<Slot>, seq<u8>)>
  {
    var (n, b1) :- GetU32(b);
    GetSlots(n, b1)
  }

  /** Reads a whole 32-bit object file; None if it is cut short or has bytes left over. */
  function Decode32(b: seq<u8>): Option<Object32>
  {
    var (es, b1) :- GetCountedExports(b);
    var (ps, b2) :- GetCountedPending32(b1);
    var (rs, b3) :- GetCountedWords32(b2);
    var (cs, b4) :- GetCountedWords32(b3);
    if b4 == [] then Some(Object32(es, ps, rs, cs)) else None
  }

  /** Reads a whole 64-bit object file. */
  function Decode64(b: seq<u8>): Option<Object64>
  {
    var (t, b0) :- GetU32(b);
    var (es, b1) :- GetCountedExports(b0);
    var (ps, b2) :- GetCountedPending64(b1);
    var (abs, b3) :- GetCountedSlots(b2);
    var (cs, b4) :- GetCountedWords64(b3);
    if b4 == [] then Some(Object64(t, es, ps, abs, cs)) else None
  }

  // ---- round trips ----------------------------------------------------

  lemma {:induction false} Words32RoundTrip(ws: seq<u32>, rest: seq<u8>)
    ensures GetWords32(|ws|, Words32(ws) + rest) == Some((ws, rest))
  {
    if ws != [] {
      assert Words32(ws) + rest == Le32(ws[0]) + (Words32(ws[1..]) + rest);
      GetU32Le32(ws[0], Words32(ws[1..]) + rest);
      Words32RoundTrip(ws[1..], rest);
      assert [ws[0]] + ws[1..] == ws;
    } else {
      assert [] + rest == rest;
    }
  }

  lemma {:induction false} Words64RoundTrip(ws: seq<u64>, rest: seq<u8>)
    ensures GetWords64(|ws|, Words64(ws) + rest) == Some((ws, rest))
  {
    if ws != [] {
      assert Words64(ws) + rest == Le64(ws[0]) + (Words64(ws[1..]) + rest);
      GetU64Le64(ws[0], Words64(ws[1..]) + rest);
      Words64RoundTrip(ws[1..], rest);
      assert [ws[0]] + ws[1..] == ws;
    } else {
      assert [] + rest == rest;
    }
  }

  lemma SlotRoundTrip(sl: Slot, rest: seq<u8>)
    ensures GetSlot(SlotBytes(sl) + rest) == Some((sl, rest))
  {
    assert SlotBytes(sl) + rest == Le32(sl.0) + (Le32(FieldIndex(sl.1)) + rest);
    GetU32Le32(sl.0, Le32(FieldIndex(sl.1)) + rest);
    GetU32Le32(FieldIndex(sl.1), rest);
  }

  lemma {:induction false} SlotsRoundTrip(ss: seq<Slot>, rest: seq<u8>)
    ensures GetSlots(|ss|, Slots(ss) + rest) == Some((ss, rest))
  {
    if ss != [] {
      assert Slots(ss) + rest == SlotBytes(ss[0]) + (Slots(ss[1..]) + rest);
      SlotRoundTrip(ss[0], Slots(ss[1..]) + rest);
      SlotsRoundTrip(ss[1..], rest);
      assert [ss[0]] + ss[1..] == ss;
    } else {
      assert [] + rest == rest;
    }
  }

  lemma ExportRoundTrip(e: (string, u32), rest: seq<u8>)
    requires IsByteString(e.0) && NulFree(e.0)
    ensures GetExport(ExportBytes(e) + rest) == Some((e, rest))
  {
    assert ExportBytes(e) + rest == CString(e.0) + (Le32(e.1) + rest);
    GetCStringRoundTrip(e.0, Le32(e.1) + rest);
    GetU32Le32(e.1, rest);
  }

  lemma {:induction false} ExportsRoundTrip(es: seq<(string, u32)>, rest: seq<u8>)
    requires forall i | 0 <= i < |es| :: IsByteString(es[i].0) && NulFree(es[i].0)
    ensures GetExports(|es|, Exports(es) + rest) == Some((es, rest))
  {
    if es != [] {
      assert Exports(es) + rest == ExportBytes(es[0]) + (Exports(es[1..]) + rest);
      ExportRoundTrip(es[0], Exports(es[1..]) + rest);
      ExportsRoundTrip(es[1..], rest);
      assert [es[0]] + es[1..] == es;
    } else {
      assert [] + rest == rest;
    }
  }

  lemma Pending32EntryRoundTrip(p: (string, seq<u32>), rest: seq<u8>)
    requires IsByteString(p.0) && NulFree(p.0) && |p.1| < TWO32
    ensures GetPending32Entry(Pending32Bytes(p) + rest) == Some((p, rest))
  {
    assert Pending32Bytes(p) + rest == CString(p.0) + (Le32(Wrap32(|p.1|)) + (Words32(p.1) + rest));
    GetCStringRoundTrip(p.0, Le32(Wrap32(|p.1|)) + (Words32(p.1) + rest));
    GetU32Le32(Wrap32(|p.1|), Words32(p.1) + rest);
    Words32RoundTrip(p.1, rest);
  }

  lemma {:induction false} Pending32RoundTrip(ps: seq<(string, seq<u32>)>, rest: seq<u8>)
    requires forall i | 0 <= i < |ps| :: IsByteString(ps[i].0) && NulFree(ps[i].0) && |ps[i].1| < TWO32
    ensures GetPending32(|ps|, Pending32(ps) + rest) == Some((ps, rest))
  {
    if ps != [] {
      assert Pending32(ps) + rest == Pending32Bytes(ps[0]) + (Pending32(ps[1..]) + rest);
      Pending32EntryRoundTrip(ps[0], Pending32(ps[1..]) + rest);
      Pending32RoundTrip(ps[1..], rest);
      assert [ps[0]] + ps[1..] == ps;
    } else {
      assert [] + rest == rest;
    }
  }

  lemma Pending64EntryRoundTrip(p: (string, seq<Slot>), rest: seq<u8>)
    requires IsByteString(p.0) && NulFree(p.0) && |p.1| < TWO32
    ensures GetPending64Entry(Pending64Bytes(p) + rest) == Some((p, rest))
  {
    assert Pending64Bytes(p) + rest == CString(p.0) + (Le32(Wrap32(|p.1|)) + (Slots(p.1) + rest));
    GetCStringRoundTrip(p.0, Le32(Wrap32(|p.1|)) + (Slots(p.1) + rest));
    GetU32Le32(Wrap32(|p.1|), Slots(p.1) + rest);
    SlotsRoundTrip(p.1, rest);
  }

  lemma {:induction false} Pending64RoundTrip(ps: seq<(string, seq<Slot>)>, rest: seq<u8>)
    requires forall i | 0 <= i < |ps| :: IsByteString(ps[i].0) && NulFree(ps[i].0) && |ps[i].1| < TWO32
    ensures GetPending64(|ps|, Pending64(ps) + rest) == Some((ps, rest))
  {
    if ps != [] {
      assert Pending64(ps) + rest == Pending64Bytes(ps[0]) + (Pending64(ps[1..]) + rest);
      Pending64EntryRoundTrip(ps[0], Pending64(ps[1..]) + rest);
      Pending64RoundTrip(ps[1..], rest);
      assert [ps[0]] + ps[1..] == ps;
    } else {
      assert [] + rest == rest;
    }
  }

  lemma CountedExportsRoundTrip(es: seq<(string, u32)>, rest: seq<u8>)
    requires |es| < TWO32 && forall i | 0 <= i < |es| :: IsByteString(es[i].0) && NulFree(es[i].0)
    ensures GetCountedExports(ExportsBlock(es) + rest) == Some((es, rest))
  {
    assert ExportsBlock(es) + rest == Le32(Wrap32(|es|)) + (Exports(es) + rest);
    GetU32Le32(Wrap32(|es|), Exports(es) + rest);
    ExportsRoundTrip(es, rest);
  }

  lemma CountedPending32RoundTrip(ps: seq<(string, seq<u32>)>, rest: seq<u8>)
    requires |ps| < TWO32
    requires forall i | 0 <= i < |ps| :: IsByteString(ps[i].0) && NulFree(ps[i].0) && |ps[i].1| < TWO32
    ensures GetCountedPending32(Pending32Block(ps) + rest) == Some((ps, rest))
  {
    assert Pending32Block(ps) + rest == Le32(Wrap32(|ps|)) + (Pending32(ps) + rest);
    GetU32Le32(Wrap32(|ps|), Pending32(ps) + rest);
    Pending32RoundTrip(ps, rest);
  }

  lemma CountedPending64RoundTrip(ps: seq<(string, seq<Slot>)>, rest: seq<u8>)
    requires |ps| < TWO32
    requires forall i | 0 <= i < |ps| :: IsByteString(ps[i].0) && NulFree(ps[i].0) && |ps[i].1| < TWO32
    ensures GetCountedPending64(Pending64Block(ps) + rest) == Some((ps, rest))
  {
    assert Pending64Block(ps) + rest == Le32(Wrap32(|ps|)) + (Pending64(ps) + rest);
    GetU32Le32(Wrap32(|ps|), Pending64(ps) + rest);
    Pending64RoundTrip(ps, rest);
  }

  lemma CountedWords32RoundTrip(ws: seq<u32>, rest: seq<u8>)
    requires |ws| < TWO32
    ensures GetCountedWords32(Words32Block(ws) + rest) == Some((ws, rest))
  {
    assert Words32Block(ws) + rest == Le32(Wrap32(|ws|)) + (Words32(ws) + rest);
    GetU32Le32(Wrap32(|ws|), Words32(ws) + rest);
    Words32RoundTrip(ws, rest);
  }

  lemma CountedWords64RoundTrip(ws: seq<u64>, rest: seq<u8>)
    requires |ws| < TWO32
    ensures GetCountedWords64(Words64Block(ws) + rest) == Some((ws, rest))
  {
    assert Words64Block(ws) + rest == Le32(Wrap32(|ws|)) + (Words64(ws) + rest);
    GetU32Le32(Wrap32(|ws|), Words64(ws) + rest);
    Words64RoundTrip(ws, rest);
  }

  lemma CountedSlotsRoundTrip(ss: seq<Slot>, rest: seq<u8>)
    requires |ss| < TWO32
    ensures GetCountedSlots(SlotsBlock(ss) + rest) == Some((ss, rest))
  {
    assert SlotsBlock(ss) + rest == Le32(Wrap32(|ss|)) + (Slots(ss) + rest);
    GetU32Le32(Wrap32(|ss|), Slots(ss) + rest);
    SlotsRoundTrip(ss, rest);
  }

  /** Reading back what the 32-bit writer produced gives the same object. */
  lemma Decode32Encode32(o: Object32)
    requires Readable32(o)
    ensures Decode32(Encode32(o)) == Some(o)
  {
    var t3 := Words32Block(o.code);
    var t2 := Words32Block(o.relatives) + t3;
    var t1 := Pending32Block(o.pending) + t2;
    CountedExportsRoundTrip(o.exports, t1);
    CountedPending32RoundTrip(o.pending, t2);
    CountedWords32RoundTrip(o.relatives, t3);
    assert t3 == t3 + [];
    CountedWords32RoundTrip(o.code, []);
  }

  /** Reading back what the 64-bit writer produced gives the same object. */
  lemma Decode64Encode64(o: Object64)
    requires Readable64(o)
    ensures Decode64(Encode64(o)) == Some(o)
  {
    var t3 := Words64Block(o.code);
    var t2 := SlotsBlock(o.absolute) + t3;
    var t1 := Pending64Block(o.pending) + t2;
    var t0 := ExportsBlock(o.exports) + t1;
    GetU32Le32(o.textOffset, t0);
    CountedExportsRoundTrip(o.exports, t1);
    CountedPending64RoundTrip(o.pending, t2);
    CountedSlotsRoundTrip(o.absolute, t3);
    assert t3 == t3 + [];
    CountedWords64RoundTrip(o.code, []);
  }

  // ---- writing one item at a time -----------------------------------------

  /** Each writer is a loop of `f.write` calls: writing one more item appends
      that item's bytes. */
  lemma {:induction false} Words32Append(ws: seq<u32>, w: u32)
    ensures Words32(ws + [w]) == Words32(ws) + Le32(w)
  {
    if ws != [] {
      assert (ws + [w])[1..] == ws[1..] + [w];
      Words32Append(ws[1..], w);
    }
  }

  lemma {:induction false} Words64Append(ws: seq<u64>, w: u64)
    ensures Words64(ws + [w]) == Words64(ws) + Le64(w)
  {
    if ws != [] {
      assert (ws + [w])[1..] == ws[1..] + [w];
      Words64Append(ws[1..], w);
    }
  }

  lemma {:induction false} SlotsAppend(ss: seq<Slot>, sl: Slot)
    ensures Slots(ss + [sl]) == Slots(ss) + SlotBytes(sl)
  {
    if ss != [] {
      assert (ss + [sl])[1..] == ss[1..] + [sl];
      SlotsAppend(ss[1..], sl);
    }
  }

  lemma {:induction false} ExportsAppend(es: seq<(string, u32)>, e: (string, u32))
    requires forall i | 0 <= i < |es| :: IsByteString(es[i].0)
    requires IsByteString(e.0)
    ensures Exports(es + [e]) == Exports(es) + ExportBytes(e)
  {
    if es != [] {
      assert (es + [e])[1..] == es[1..] + [e];
      ExportsAppend(es[1..], e);
    }
  }

  lemma {:induction false} Pending32Append(ps: seq<(string, seq<u32>)>, p: (string, seq<u32>))
    requires forall i | 0 <= i < |ps| :: IsByteString(ps[i].0)
    requires IsByteString(p.0)
    ensures Pending32(ps + [p]) == Pending32(ps) + Pending32Bytes(p)
  {
    if ps != [] {
      assert (ps + [p])[1..] == ps[1..] + [p];
      Pending32Append(ps[1..], p);
    }
  }

  lemma {:induction false} Pending64Append(ps: seq<(string, seq<Slot>)>, p: (string, seq<Slot>))
    requires forall i | 0 <= i < |ps| :: IsByteString(ps[i].0)
    requires IsByteString(p.0)
    ensures Pending64(ps + [p]) == Pending64(ps) + Pending64Bytes(p)
  {
    if ps != [] {
      assert (ps + [p])[1..] == ps[1..] + [p];
      Pending64Append(ps[1..], p);
    }
  }
}
