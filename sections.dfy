/** What the section loops of the three assemblers share: the name a label
    token defines and the export section. */
module Sections {
  import opened Wrappers
  import opened Words
  import opened Lexer

  /** `buf.substr(0, buf.size() - 1)`: the name a label token defines. */
  function Label(t: string): (name: string)
    requires t != ""
    ensures t == name + [t[|t| - 1]]
  {
    t[..|t| - 1]
  }

  /** The export loop after `.export`: every token up to `.data` joins the
      exported names. End of input before `.data` would make the original
      loop forever. */
  function ExportSection(s: string, ls: LexState, exported: set<string>): (r: Result<(LexState, set<string>)>)
    requires ls.pos <= |s|
    ensures r.Success? ==> r.value.0.pos <= |s| && r.value.0.buf == ".data" && exported <= r.value.1
    ensures r.Failure? ==> r.error == Unterminated(".data")
    decreases Remaining(s, ls)
  {
    if ls.buf == ".data" then Success((ls, exported))
    else if ls.buf == "" then Failure(Unterminated(".data"))
    else ExportSection(s, Read(s, ls), exported + {ls.buf})
  }

  /** The export section adds exactly the tokens it reads before `.data`:
      a name is exported afterwards iff it was before or it is one of them. */
  lemma {:induction false} ExportSectionAdds(s: string, ls: LexState, exported: set<string>, n: string)
    requires ls.pos <= |s|
    ensures var r := ExportSection(s, ls, exported);
      r.Success? ==> (n in r.value.1 <==> n in exported || n in TokensBefore(s, ls, ".data"))
    decreases Remaining(s, ls)
  {
    if ls.buf != ".data" && ls.buf != "" {
      ExportSectionAdds(s, Read(s, ls), exported + {ls.buf}, n);
    }
  }

  /** The tokens from `ls.buf` on that precede the first `stop` token, or all
      of them when there is none. */
  function TokensBefore(s: string, ls: LexState, stop: string): set<string>
    requires ls.pos <= |s|
    decreases Remaining(s, ls)
  {
    if ls.buf == stop || ls.buf == "" then {}
    else {ls.buf} + TokensBefore(s, Read(s, ls), stop)
  }

  /** Names read from a byte-string input are byte strings. */
  lemma {:induction false} ExportSectionBytes(s: string, ls: LexState, exported: set<string>)
    requires ls.pos <= |s| && IsByteString(s) && IsByteString(ls.buf)
    requires forall n | n in exported :: IsByteString(n)
    ensures var r := ExportSection(s, ls, exported);
      r.Success? ==> forall n | n in r.value.1 :: IsByteString(n)
    decreases Remaining(s, ls)
  {
    if ls.buf != ".data" && ls.buf != "" {
      ExportSectionBytes(s, Read(s, ls), exported + {ls.buf});
    }
  }
}
