/** What the 32-bit and the 64-bit object-file writers share: the order in
    which they visit `std::set` and `std::map` contents, and the export
    block, which is the same in both layouts. */
module Writer {
  import opened Words
  import opened Ordering
  import opened ObjectFile

  /** `symbols[exp]`: the address of a name, 0 if it was never defined
      (`operator[]` inserts a zero). */
  function Lookup(symbols: map<string, u32>, name: string): (a: u32)
    ensures name in symbols ==> a == symbols[name]
    ensures name !in symbols ==> a == 0
  {
    if name in symbols then symbols[name] else 0
  }

  function Names<T>(es: seq<(string, T)>): (ns: seq<string>)
    ensures |ns| == |es| && forall i | 0 <= i < |es| :: ns[i] == es[i].0
  {
    seq(|es|, i requires 0 <= i < |es| => es[i].0)
  }

  /** The exported names with their addresses, in the given order. */
  function ExportList(symbols: map<string, u32>, names: seq<string>): (es: seq<(string, u32)>)
    ensures |es| == |names|
    ensures forall i | 0 <= i < |names| :: es[i] == (names[i], Lookup(symbols, names[i]))
  {
    seq(|names|, i requires 0 <= i < |names| => (names[i], Lookup(symbols, names[i])))
  }

  lemma ExportListAppend(symbols: map<string, u32>, names: seq<string>, name: string)
    ensures ExportList(symbols, names + [name]) == ExportList(symbols, names) + [(name, Lookup(symbols, name))]
  {
  }

  /** The bytes the export loop writes for `names`. */
  function ExportEntries(symbols: map<string, u32>, names: seq<string>): seq<u8>
    requires forall i | 0 <= i < |names| :: IsByteString(names[i])
  {
    Exports(ExportList(symbols, names))
  }

  /** Writing one more export appends its name, its NUL and its address. */
  lemma ExportEntriesStep(symbols: map<string, u32>, names: seq<string>, i: nat)
    requires forall j | 0 <= j < |names| :: IsByteString(names[j])
    requires i < |names|
    ensures ExportEntries(symbols, names[..i + 1]) ==
      ExportEntries(symbols, names[..i]) + (CString(names[i]) + Le32(Lookup(symbols, names[i])))
  {
    assert names[..i + 1] == names[..i] + [names[i]];
    ExportListAppend(symbols, names[..i], names[i]);
    ExportsAppend(ExportList(symbols, names[..i]), (names[i], Lookup(symbols, names[i])));
  }

  lemma AllByteStrings(q: seq<string>, s: set<string>)
    requires forall x | x in s :: IsByteString(x)
    requires forall x :: x in q <==> x in s
    ensures forall i | 0 <= i < |q| :: IsByteString(q[i])
  {
    forall i | 0 <= i < |q|
      ensures IsByteString(q[i])
    {
      assert q[i] in s;
    }
  }

  /** The export block of either layout: the count, then every exported
      name in increasing order with its address. */
  ghost function ExportsPart(exported: set<string>, symbols: map<string, u32>): seq<u8>
    requires forall n | n in exported :: IsByteString(n)
  {
    SortedStringsSpec(exported);
    AllByteStrings(SortedStrings(exported), exported);
    ExportsBlock(ExportList(symbols, SortedStrings(exported)))
  }

  /** The export loop of the write block. */
  method WriteExports(exported: set<string>, symbols: map<string, u32>) returns (out: seq<u8>)
    requires forall n | n in exported :: IsByteString(n)
    ensures out == ExportsPart(exported, symbols)
  {
    var names := SortedNames(exported);
    SortedStringsSpec(exported);
    AllByteStrings(names, exported);
    var entries: seq<u8> := [];
    for i := 0 to |names|
      invariant entries == ExportEntries(symbols, names[..i])
    {
      var name := names[i];
      var address := Lookup(symbols, name);
      ExportEntriesStep(symbols, names, i);
      entries := entries + (CString(name) + Le32(address));
    }
    assert names[..|names|] == names;
    out := Le32(Wrap32(|exported|)) + entries;
  }

  /** A set of addresses in increasing order, four bytes each. */
  method WriteAddresses(s: set<u32>) returns (out: seq<u8>)
    ensures out == Words32(SortedWords(s))
  {
    var addrs := SortedAddresses(s);
    out := [];
    for i := 0 to |addrs|
      invariant out == Words32(addrs[..i])
    {
      assert addrs[..i + 1] == addrs[..i] + [addrs[i]];
      Words32Append(addrs[..i], addrs[i]);
      out := out + Le32(addrs[i]);
    }
    assert addrs[..|addrs|] == addrs;
  }

  /** The names of a `std::set<std::string>`, or the keys of a `std::map`
      keyed by names, in the order its iterator visits them. */
  method SortedNames(s: set<string>) returns (q: seq<string>)
    ensures q == SortedStrings(s)
  {
    q := [];
    var todo := s;
    while todo != {}
      invariant SortedStrings(s) == q + SortedStrings(todo)
      decreases |todo|
    {
      var name := FirstName(todo);
      MoveFirst(q, name, SortedStrings(todo - {name}));
      q := q + [name];
      todo := todo - {name};
    }
    assert q + SortedStrings(todo) == q;
  }

  /** Moving the first element still to visit to the end of those visited. */
  lemma MoveFirst<T>(q: seq<T>, x: T, rest: seq<T>)
    ensures q + ([x] + rest) == (q + [x]) + rest
  {
  }

  /** The first name such a container visits, and the ones it visits after. */
  method FirstName(s: set<string>) returns (name: string)
    requires s != {}
    ensures name in s && SortedStrings(s) == [name] + SortedStrings(s - {name})
  {
    LeastStringExists(s);
    name :| IsLeastString(name, s);
    SortedStringsStep(s, name);
  }

  /** The addresses of a `std::set` in the order its iterator visits them. */
  method SortedAddresses(s: set<u32>) returns (q: seq<u32>)
    ensures q == SortedWords(s)
  {
    q := [];
    var todo := s;
    while todo != {}
      invariant SortedWords(s) == q + SortedWords(todo)
      decreases |todo|
    {
      var a := FirstAddress(todo);
      MoveFirst(q, a, SortedWords(todo - {a}));
      q := q + [a];
      todo := todo - {a};
    }
    assert q + SortedWords(todo) == q;
  }

  /** The first address a `std::set` of addresses visits. */
  method FirstAddress(s: set<u32>) returns (a: u32)
    requires s != {}
    ensures a in s && SortedWords(s) == [a] + SortedWords(s - {a})
  {
    LeastWordExists(s);
    a :| IsLeastWord(a, s);
    SortedWordsStep(s, a);
  }
}
