/** The forwarding file as text: what `_install_node` writes and what the hook's `read` loop makes of it
    (field splitting as in section 2.6.5 of the POSIX.1-2017 Shell Command Language). */
module FdbText {

  /** One `bridge fdb` destination. */
  datatype Entry = Entry(mac: string, peer: string)

  predicate IsBlank(c: char) {
    c == ' ' || c == '\t' || c == '\n'
  }

  /** What both ends of the file must look like to survive field splitting. */
  ghost predicate IsToken(s: string) {
    s != "" && forall c | c in s :: c != ' ' && c != '\t' && c != '\n'
  }

  ghost predicate IsEntry(e: Entry) {
    IsToken(e.mac) && IsToken(e.peer) && e.mac[0] != '#'
  }

  // ----- Writing -----

  function Render(e: Entry): string {
    e.mac + " " + e.peer
  }

  function RenderAll(es: seq<Entry>): (lines: seq<string>)
    ensures |lines| == |es| && forall i | 0 <= i < |es| :: lines[i] == Render(es[i])
  {
    seq(|es|, i requires 0 <= i < |es| => Render(es[i]))
  }

  /** `"\n".join(lines)`. */
  function Join(lines: seq<string>): string {
    if lines == [] then ""
    else if |lines| == 1 then lines[0]
    else lines[0] + "\n" + Join(lines[1..])
  }

  function Body(lines: seq<string>): string {
    Join(lines) + "\n"
  }

  // ----- Reading: the specification -----

  function SkipBlanks(s: string): (r: string)
    ensures |r| <= |s|
  {
    if s != "" && IsBlank(s[0]) then SkipBlanks(s[1..]) else s
  }

  function Field(s: string): (r: string)
    ensures |r| <= |s| && s[..|r|] == r
  {
    if s == "" || IsBlank(s[0]) then "" else [s[0]] + Field(s[1..])
  }

  /** `read -r mac peer _` on one line; the third variable takes the rest. */
  function Fields(line: string): Entry {
    var s := SkipBlanks(line);
    var mac := Field(s);
    Entry(mac, Field(SkipBlanks(s[|mac|..])))
  }

  /** The hook acts on a line unless it is empty, a comment, or has no peer. */
  predicate Acts(e: Entry) {
    e.mac != "" && e.mac[0] != '#' && e.peer != ""
  }

  /** Lines of a text; what follows the last newline is a line too, possibly empty. */
  function Lines(text: string): (r: seq<string>)
    ensures r != []
  {
    if text == "" then [""]
    else
      var rest := Lines(text[1..]);
      if text[0] == '\n' then [""] + rest else [[text[0]] + rest[0]] + rest[1..]
  }

  /** The destinations of the lines the hook acts on. */
  function Kept(lines: seq<string>): seq<Entry> {
    if lines == [] then []
    else if Acts(Fields(lines[0])) then [Fields(lines[0])] + Kept(lines[1..])
    else Kept(lines[1..])
  }

  /** The destinations a data file stands for. */
  function Entries(text: string): seq<Entry> {
    Kept(Lines(text))
  }

  // ----- Reading: the loop -----

  /** Index of the first newline, or the length. */
  function LineEnd(text: string): (n: nat)
    ensures n <= |text|
    ensures '\n' !in text[..n]
    ensures n < |text| ==> text[n] == '\n'
  {
    if text == "" || text[0] == '\n' then 0
    else
      assert text[..1 + LineEnd(text[1..])] == [text[0]] + text[1..][..LineEnd(text[1..])];
      1 + LineEnd(text[1..])
  }

  lemma {:induction false} LinesFirst(text: string)
    ensures var n := LineEnd(text);
            Lines(text) == if n < |text| then [text[..n]] + Lines(text[n + 1..]) else [text]
  {
    if text != "" {
      if text[0] == '\n' {
        assert text[..0] == "";
      } else {
        var rest, n := text[1..], LineEnd(text[1..]);
        LinesFirst(rest);
        if n < |rest| {
          assert text[n + 2..] == rest[n + 1..] && text[..n + 1] == [text[0]] + rest[..n];
        } else {
          assert text == [text[0]] + rest;
        }
      }
    }
  }

  lemma {:induction false} KeptAppend(a: seq<string>, b: seq<string>)
    ensures Kept(a + b) == Kept(a) + Kept(b)
  {
    if a == [] {
      assert a + b == b;
    } else {
      KeptAppend(a[1..], b);
      assert (a + b)[1..] == a[1..] + b && (a + b)[0] == a[0];
    }
  }

  lemma EmptyLine()
    ensures Kept([""]) == [] && Kept(["", ""]) == []
  {
    assert [""][1..] == [] && ["", ""][1..] == [""];
  }

  /** One `read`: the destination of the first line, if it has one, then those of the rest. */
  lemma EntriesStep(text: string)
    ensures var n := LineEnd(text);
            var rest := if n < |text| then Entries(text[n + 1..]) else [];
            Entries(text) == if Acts(Fields(text[..n])) then [Fields(text[..n])] + rest else rest
  {
    var n := LineEnd(text);
    LinesFirst(text);
    var lines := Lines(text);
    if n < |text| {
      assert lines[0] == text[..n] && lines[1..] == Lines(text[n + 1..]);
    } else {
      assert text[..n] == text;
      assert lines[0] == text && lines[1..] == [];
    }
  }

  /** `read -r mac peer _`: the variables, whether a newline was seen, and the input left. */
  method ReadLine(text: string) returns (fields: Entry, terminated: bool, rest: string)
    ensures Entries(text) == if Acts(fields) then [fields] + Entries(rest) else Entries(rest)
    ensures terminated || fields.mac != "" ==> |rest| < |text|
    ensures !terminated && fields.mac == "" ==> Entries(text) == []
  {
    EntriesStep(text);
    EmptyLine();
    var n := LineEnd(text);
    fields, terminated := Fields(text[..n]), n < |text|;
    rest := if terminated then text[n + 1..] else "";
  }

  /** The hook's `while read -r mac peer _ || [ -n "$mac" ]` loop, with each `bridge fdb append` an element
      of the result. It ends on every input and keeps a last line that lacks its newline. */
  method ReadEntries(text: string) returns (es: seq<Entry>)
    ensures es == Entries(text)
  {
    es := [];
    var rest, more := text, true;
    ghost var all, left := Entries(text), Entries(text);
    while more
      invariant all == es + left
      invariant left == if more then Entries(rest) else []
      decreases more, |rest|
    {
      var fields, terminated, tail := ReadLine(rest);
      if terminated || fields.mac != "" {
        left := Entries(tail);
        if fields.mac != "" && fields.mac[0] != '#' && fields.peer != "" {
          es := es + [fields];
        }
        rest := tail;
      } else {
        left := [];
        more := false;
      }
    }
  }

  // ----- Round trip -----

  lemma {:induction false} FieldOfToken(tok: string, rest: string)
    requires IsToken(tok) && (rest == "" || IsBlank(rest[0]))
    ensures Field(tok + rest) == tok && SkipBlanks(tok + rest) == tok + rest
  {
    assert tok[0] in tok;
    if |tok| > 1 {
      assert forall c | c in tok[1..] :: c in tok;
      FieldOfToken(tok[1..], rest);
    } else {
      assert (tok + rest)[1..] == rest;
    }
    assert (tok + rest)[1..] == tok[1..] + rest;
    assert tok == [tok[0]] + tok[1..];
  }

  lemma {:induction false} BlanksSkipped(blanks: string, rest: string)
    requires forall c | c in blanks :: c == ' ' || c == '\t'
    ensures SkipBlanks(blanks + rest) == SkipBlanks(rest)
  {
    if blanks == "" {
      assert blanks + rest == rest;
    } else {
      assert blanks[0] in blanks && forall c | c in blanks[1..] :: c in blanks;
      assert (blanks + rest)[1..] == blanks[1..] + rest;
      BlanksSkipped(blanks[1..], rest);
    }
  }

  /** A line's first two words are its MAC and its peer, whatever blanks surround them and whatever follows. */
  lemma LineIsRead(lead: string, mac: string, gap: string, peer: string, tail: string)
    requires (forall c | c in lead + gap :: c == ' ' || c == '\t') && gap != ""
    requires IsToken(mac) && IsToken(peer) && (tail == "" || tail[0] == ' ' || tail[0] == '\t')
    ensures Fields(lead + (mac + (gap + (peer + tail)))) == Entry(mac, peer)
  {
    var afterMac := gap + (peer + tail);
    assert forall c | c in lead || c in gap :: c in lead + gap;
    assert gap[0] in gap && afterMac[0] == gap[0];
    BlanksSkipped(lead, mac + afterMac);
    FieldOfToken(mac, afterMac);
    assert (mac + afterMac)[|mac|..] == afterMac;
    BlanksSkipped(gap, peer + tail);
    FieldOfToken(peer, tail);
  }

  lemma RenderedFields(e: Entry)
    requires IsEntry(e)
    ensures Fields(Render(e)) == e && Acts(e)
    ensures '\n' !in Render(e)
  {
    var tail := " " + e.peer;
    assert Render(e) == e.mac + tail;
    FieldOfToken(e.mac, tail);
    assert Render(e)[|e.mac|..] == tail;
    assert tail[1..] == e.peer == e.peer + "";
    FieldOfToken(e.peer, "");
  }

  lemma {:induction false} LinesOfLine(line: string, rest: string)
    requires '\n' !in line
    ensures Lines(line + "\n" + rest) == [line] + Lines(rest)
    ensures Lines(line) == [line]
  {
    if line == "" {
      assert line + "\n" + rest == "\n" + rest;
    } else {
      LinesOfLine(line[1..], rest);
      var text := line + "\n" + rest;
      assert text[1..] == line[1..] + "\n" + rest;
      assert line == [line[0]] + line[1..];
    }
  }

  /** Splitting joined lines gives the lines back, with one empty line after a final newline. */
  lemma {:induction false} LinesOfJoin(lines: seq<string>)
    requires forall l | l in lines :: '\n' !in l
    ensures lines != [] ==> Lines(Join(lines)) == lines && Lines(Body(lines)) == lines + [""]
    ensures lines == [] ==> Lines(Join(lines)) == [""] && Lines(Body(lines)) == ["", ""]
  {
    if lines == [] {
      assert Lines("\n") == [""] + Lines("\n"[1..]);
      assert Lines("") == [""];
    } else if |lines| == 1 {
      LinesOfLine(lines[0], "");
      assert lines[0] + "\n" == lines[0] + "\n" + "";
      assert Lines("") == [""];
    } else {
      assert forall l | l in lines[1..] :: l in lines;
      LinesOfJoin(lines[1..]);
      LinesOfLine(lines[0], Join(lines[1..]));
      LinesOfLine(lines[0], Body(lines[1..]));
      assert Body(lines) == lines[0] + "\n" + Body(lines[1..]);
      assert lines == [lines[0]] + lines[1..];
    }
  }

  lemma {:induction false} KeptRendered(es: seq<Entry>)
    requires forall e | e in es :: IsEntry(e)
    ensures Kept(RenderAll(es)) == es
  {
    if es != [] {
      RenderedFields(es[0]);
      assert forall e | e in es[1..] :: e in es;
      KeptRendered(es[1..]);
      assert RenderAll(es)[1..] == RenderAll(es[1..]);
    }
  }

  lemma {:induction false} FieldHasNoBlank(s: string)
    ensures forall c | c in Field(s) :: !IsBlank(c)
  {
    if s != "" && !IsBlank(s[0]) {
      FieldHasNoBlank(s[1..]);
    }
  }

  /** Whatever the text, the hook only ever appends well-formed destinations. */
  lemma {:induction false} OnlyWellFormed(lines: seq<string>, e: Entry)
    requires e in Kept(lines)
    ensures IsEntry(e)
  {
    var s := SkipBlanks(lines[0]);
    FieldHasNoBlank(s);
    FieldHasNoBlank(SkipBlanks(s[|Field(s)|..]));
    if !Acts(Fields(lines[0])) || e != Fields(lines[0]) {
      OnlyWellFormed(lines[1..], e);
    }
  }

  lemma RoundTripOfEntries(es: seq<Entry>)
    requires forall e | e in es :: IsEntry(e)
    ensures Entries(Body(RenderAll(es))) == es
    ensures Entries(Join(RenderAll(es))) == es
  {
    var lines := RenderAll(es);
    forall l | l in lines ensures '\n' !in l {
      var i :| 0 <= i < |lines| && lines[i] == l;
      assert es[i] in es;
      RenderedFields(es[i]);
    }
    LinesOfJoin(lines);
    KeptRendered(es);
    EmptyLine();
    KeptAppend(lines, [""]);
  }

  /** The hook reads back exactly what was written, in order, with or without the final newline,
      if and only if every destination written is a pair of tokens that does not look like a comment. */
  lemma RoundTrip(es: seq<Entry>)
    ensures (forall e | e in es :: IsEntry(e)) ==> Entries(Body(RenderAll(es))) == Entries(Join(RenderAll(es))) == es
    ensures Entries(Body(RenderAll(es))) == es ==> forall e | e in es :: IsEntry(e)
    ensures Entries(Join(RenderAll(es))) == es ==> forall e | e in es :: IsEntry(e)
  {
    if forall e | e in es :: IsEntry(e) {
      RoundTripOfEntries(es);
    }
    forall text, e | e in Entries(text) ensures IsEntry(e) {
      OnlyWellFormed(Lines(text), e);
    }
  }
}
