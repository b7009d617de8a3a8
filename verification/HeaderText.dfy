/**
 Header blocks as text: line ends, lines and fields as the decoder sees them, and the
 rendering that it undoes.
 */
module HeaderText {
  import opened BufferPool
  import opened CString
  import opened HeaderTable
  import opened StreamPointers

  const CR := '\r'
  const LF := '\n'
  const COLON := ':'
  const SPACE := ' '

  // ---------- lines ----------

  /** is_eol: the length of the line end at the start of t; LF CR and CR LF count as
      one line end of two bytes, a lone LF as one of one byte. */
  function EolLen(t: string): (n: nat)
    ensures n <= |t|
  {
    if |t| >= 2 && ((t[0] == LF && t[1] == CR) || (t[0] == CR && t[1] == LF)) then 2
    else if t != [] && t[0] == LF then 1
    else 0
  }

  /** How far the text runs before the next line end, or to its end. */
  function RunLen(t: string): (n: nat)
    ensures n <= |t|
  {
    if t == [] || EolLen(t) > 0 then 0 else 1 + RunLen(t[1..])
  }

  /** What one call of get_next_line consumes of the text in front of it: a line end,
      if there is one, and the run up to the next line end. */
  function Consumed(t: string): (n: nat)
    ensures n <= |t|
  {
    EolLen(t) + RunLen(t[EolLen(t)..])
  }

  datatype Piece = Piece(eol: string, run: string)

  /** All the pieces that repeated calls split the text into. */
  function Split(t: string): seq<Piece> {
    var n := EolLen(t);
    var run := t[n..][..RunLen(t[n..])];
    if t == [] then []
    else
      ConsumedGrows(t);
      [Piece(t[..n], run)] + Split(t[Consumed(t)..])
  }

  function Join(pieces: seq<Piece>): string {
    if pieces == [] then [] else pieces[0].eol + pieces[0].run + Join(pieces[1..])
  }

  /** Every call gets further, up to the end of the text. */
  lemma ConsumedGrows(t: string)
    requires t != []
    ensures Consumed(t) > 0
  {
  }

  lemma {:induction false} RunIsMaximal(t: string)
    ensures forall k :: 0 <= k < RunLen(t) ==> EolLen(t[k..]) == 0
    ensures RunLen(t) < |t| ==> EolLen(t[RunLen(t)..]) > 0
  {
    if t != [] && EolLen(t) == 0 {
      RunIsMaximal(t[1..]);
      forall k | 0 <= k < RunLen(t) ensures EolLen(t[k..]) == 0 {
        if k > 0 { assert t[k..] == t[1..][k - 1..]; }
      }
      assert t[RunLen(t)..] == t[1..][RunLen(t[1..])..];
    }
  }

  /** Splitting conserves the bytes. */
  lemma {:induction false} SplitConserves(t: string)
    ensures Join(Split(t)) == t
    decreases |t|
  {
    if t != [] {
      hide Split, EolLen, RunLen, Join;
      var n, m := EolLen(t), Consumed(t);
      SplitStep(t);
      SplitConserves(t[m..]);
      JoinStep(Piece(t[..n], t[n..][..RunLen(t[n..])]), Split(t[m..]));
      Reassemble(t, n, RunLen(t[n..]));
    }
  }

  lemma JoinStep(p: Piece, rest: seq<Piece>)
    ensures Join([p] + rest) == p.eol + p.run + Join(rest)
  {
    assert ([p] + rest)[1..] == rest;
  }

  lemma Reassemble(t: string, n: nat, k: nat)
    requires n + k <= |t|
    ensures t[..n] + t[n..][..k] + t[n + k..] == t
  {
  }

  lemma SplitStep(t: string)
    requires t != []
    ensures Consumed(t) > 0
    ensures Split(t) == [Piece(t[..EolLen(t)], t[EolLen(t)..][..RunLen(t[EolLen(t)..])])] + Split(t[Consumed(t)..])
  {
    ConsumedGrows(t);
  }

  /** A line end is LF, CR LF or LF CR, or there is none. A run holds no line feed. */
  ghost predicate WellFormed(p: Piece) {
    (p.eol == "" || p.eol == "\n" || p.eol == "\r\n" || p.eol == "\n\r") && LF !in p.run
  }

  /** Each piece has at most one line end, and only the first can be without one. */
  lemma {:induction false} SplitIsWellFormed(t: string)
    ensures forall i :: 0 <= i < |Split(t)| ==> WellFormed(Split(t)[i])
    ensures forall i :: 0 < i < |Split(t)| ==> Split(t)[i].eol != ""
    ensures t != [] && EolLen(t) > 0 ==> Split(t)[0].eol != ""
    decreases |t|
  {
    if t != [] {
      hide Split, EolLen, RunLen, WellFormed;
      var n, m := EolLen(t), Consumed(t);
      ConsumedGrows(t);
      SplitIsWellFormed(t[m..]);
      SplitStep(t);
      FirstPiece(t);
      RunIsMaximal(t[n..]);
      assert t[m..] == t[n..][RunLen(t[n..])..];
      forall i | 0 <= i < |Split(t)| ensures WellFormed(Split(t)[i]) && (i > 0 ==> Split(t)[i].eol != "") {
        if i > 0 { assert Split(t)[i] == Split(t[m..])[i - 1]; }
      }
    } else {
      hide EolLen, RunLen, WellFormed;
    }
  }

  lemma FirstPiece(t: string)
    requires t != []
    ensures WellFormed(Piece(t[..EolLen(t)], t[EolLen(t)..][..RunLen(t[EolLen(t)..])]))
    ensures EolLen(t) > 0 ==> t[..EolLen(t)] != ""
  {
    hide RunLen;
    RunHasNoLf(t[EolLen(t)..]);
    if EolLen(t) == 2 { assert t[..2] == [t[0], t[1]]; } else if EolLen(t) == 1 { assert t[..1] == [t[0]]; }
  }

  /** A line end of two bytes is CR LF or LF CR, one of one byte is an LF before anything
      but a CR, and there is no other: a CR alone is none. */
  lemma EolForms(t: string)
    ensures EolLen(t) == 2 <==> "\r\n" <= t || "\n\r" <= t
    ensures EolLen(t) == 1 <==> "\n" <= t && !("\n\r" <= t)
    ensures EolLen(t) <= 2
  {
  }

  lemma {:induction false} RunHasNoLf(t: string)
    ensures LF !in t[..RunLen(t)]
  {
    if t != [] && EolLen(t) == 0 {
      RunHasNoLf(t[1..]);
      assert t[..RunLen(t)] == [t[0]] + t[1..][..RunLen(t[1..])];
    }
  }

  // ---------- fields ----------

  datatype Field = Field(name: string, value: string)

  /** The place of the last colon of a line, or -1. */
  function LastColon(line: string): (c: int)
    ensures -1 <= c < |line| && (c >= 0 ==> line[c] == COLON)
    ensures forall k :: c < k < |line| ==> line[k] != COLON
  {
    if line == [] then -1
    else if line[|line| - 1] == COLON then |line| - 1
    else LastColon(line[..|line| - 1])
  }

  function SkipSpaces(v: string): string {
    if v != [] && v[0] == SPACE then SkipSpaces(v[1..]) else v
  }

  /** A line with a colon, as the decoder reads it: the name ends at the last colon,
      the value begins after it and the spaces that follow. Both are C strings. */
  function ParseLine(line: string): Field
    requires LastColon(line) >= 0
  {
    var c := LastColon(line);
    Field(UpToNul(line[..c]), UpToNul(SkipSpaces(line[c + 1..])))
  }

  /** The fields of a block, from the line end of the line before it: up to a blank
      line, or a line that starts with its last colon. None when a line has no colon
      or the text ends first: the decoder is not defined on those. */
  function Fields(t: string): Option<seq<Field>>
    decreases |t|
  {
    var u := t[EolLen(t)..];
    var n := RunLen(u);
    if EolLen(t) == 0 || n == |u| then None
    else if n == 0 || LastColon(u[..n]) == 0 then Some([])
    else if LastColon(u[..n]) < 0 then None
    else match Fields(u[n..])
      case None => None
      case Some(rest) => Some([ParseLine(u[..n])] + rest)
  }

  /** The whole block: the first line, and then the fields. */
  function BlockFields(t: string): Option<seq<Field>> {
    Fields(t[Consumed(t)..])
  }

  /** Where the decoder stops: the text from the end of the blank line's first line end,
      or from the end of a line without a name. */
  function FieldsRest(t: string): string
    requires Fields(t).Some?
    decreases |t|
  {
    var u := t[EolLen(t)..];
    var n := RunLen(u);
    if n == 0 || LastColon(u[..n]) == 0 then u[n..] else FieldsRest(u[n..])
  }

  function BlockRest(t: string): string
    requires BlockFields(t).Some?
  {
    FieldsRest(t[Consumed(t)..])
  }

  // ---------- the value stacks ----------

  /** What the fields leave in the stack of each known name, the newest on top (last).
      A field whose name is not in the table leaves nothing. */
  function Store(stacks: seq<seq<string>>, fields: seq<Field>): (r: seq<seq<string>>)
    requires |stacks| == |HeaderStrings()|
    ensures |r| == |stacks|
    decreases |fields|
  {
    if fields == [] then stacks
    else
      var i := IndexOf(HeaderStrings(), fields[0].name);
      Store(if i >= 0 then stacks[i := stacks[i] + [fields[0].value]] else stacks, fields[1..])
  }

  /** The values of all fields of one name, in order. */
  function ValuesOf(fields: seq<Field>, name: string): seq<string> {
    if fields == [] then []
    else (if fields[0].name == name then [fields[0].value] else []) + ValuesOf(fields[1..], name)
  }

  // ---------- rendering ----------

  /** A header line: name, colon, spaces, value, line end. */
  datatype HeaderLine = HeaderLine(name: string, spaces: nat, value: string, eol: string)

  function Spaces(n: nat): string {
    seq(n, _ => SPACE)
  }

  function Text(l: HeaderLine): string {
    l.name + [COLON] + Spaces(l.spaces) + l.value
  }

  function RenderLines(lines: seq<HeaderLine>): string {
    if lines == [] then [] else Text(lines[0]) + lines[0].eol + RenderLines(lines[1..])
  }

  /** A first line, header lines, a blank line, and whatever follows. */
  function Block(first: string, eol: string, lines: seq<HeaderLine>, blank: string, rest: string): string {
    first + (eol + (RenderLines(lines) + (blank + rest)))
  }

  predicate IsEol(e: string) {
    e == [LF] || e == [CR, LF] || e == [LF, CR]
  }

  predicate OneLine(s: string) {
    CR !in s && LF !in s
  }

  /** What may stand in a header line: no line end or NUL, a name, and no space at the
      start of the value. Colons are not restricted. */
  predicate Renderable(l: HeaderLine) {
    && l.name != "" && OneLine(l.name) && OneLine(l.value) && NUL !in l.name && NUL !in l.value
    && (l.value != "" ==> l.value[0] != SPACE)
    && IsEol(l.eol)
  }

  lemma {:induction false} RunOfText(text: string, after: string)
    requires OneLine(text) && (after == [] || EolLen(after) > 0)
    ensures RunLen(text + after) == |text| && (text != [] ==> EolLen(text + after) == 0)
    ensures (text + after)[..|text|] == text && (text + after)[|text|..] == after
  {
    if text == [] {
      assert text + after == after;
    } else {
      RunOfText(text[1..], after);
      assert (text + after)[1..] == text[1..] + after;
    }
  }

  /** In front of text that does not begin with a line end byte, a line end is read
      for what it is. */
  lemma EolAlone(eol: string, more: string)
    requires IsEol(eol) && (more == [] || (more[0] != CR && more[0] != LF))
    ensures EolLen(eol + more) == |eol| && (eol + more)[|eol|..] == more
  {
  }

  /** Two line ends in a row: after the first is read, a line end comes next, even when
      the two are read as LF CR and LF. */
  lemma EolThenEol(eol: string, blank: string, rest: string)
    requires IsEol(eol) && IsEol(blank)
    ensures var t := eol + (blank + rest);
      EolLen(t) > 0 && t[EolLen(t)..] != [] && RunLen(t[EolLen(t)..]) == 0
  {
    var t := eol + (blank + rest);
    assert t[0] == eol[0] && |t| >= 2;
    assert t[1] == if |eol| == 2 then eol[1] else blank[0];
    var u := t[EolLen(t)..];
    if |eol| == 1 && blank[0] == CR {
      assert u[0] == t[2] == blank[1] == LF;
    } else {
      assert u == blank + rest;
    }
  }

  lemma TextParts(l: HeaderLine)
    ensures |Text(l)| == |l.name| + 1 + l.spaces + |l.value|
    ensures Text(l)[..|l.name|] == l.name && Text(l)[|l.name|] == COLON
    ensures Text(l)[|l.name| + 1..] == Spaces(l.spaces) + l.value
  {
    var tail := [COLON] + (Spaces(l.spaces) + l.value);
    assert Text(l) == l.name + tail;
    assert tail[1..] == Spaces(l.spaces) + l.value;
  }

  lemma TextIsALine(l: HeaderLine)
    requires Renderable(l)
    ensures OneLine(Text(l)) && Text(l) != [] && LastColon(Text(l)) >= |l.name| > 0
  {
    hide LastColon;
    TextParts(l);
    assert Text(l)[|l.name|] == COLON;
  }

  function ParseAll(lines: seq<HeaderLine>): (fields: seq<Field>)
    requires forall l :: l in lines ==> Renderable(l)
  {
    if lines == [] then []
    else
      TextIsALine(lines[0]);
      [ParseLine(Text(lines[0]))] + ParseAll(lines[1..])
  }

  /** One more line in front of a text that the decoder can read. */
  lemma FieldsStep(eol: string, text: string, after: string)
    requires IsEol(eol) && OneLine(text) && text != [] && LastColon(text) > 0 && EolLen(after) > 0
    ensures Fields(eol + (text + after)) ==
      match Fields(after)
      case None => None
      case Some(rest) => Some([ParseLine(text)] + rest)
    ensures Fields(after).Some? ==> FieldsRest(eol + (text + after)) == FieldsRest(after)
  {
    hide LastColon, ParseLine, EolLen, RunLen;
    var t := eol + (text + after);
    EolAlone(eol, text + after);
    RunOfText(text, after);
    assert |text + after| == |text| + |after|;
    NotEmpty(after);
  }

  lemma NotEmpty(t: string)
    requires EolLen(t) > 0
    ensures t != []
  {
  }

  /** A rendered block is read line by line, whatever the mixture of line ends. */
  lemma {:induction false} FieldsOfRendered(eol: string, lines: seq<HeaderLine>, blank: string, rest: string)
    requires IsEol(eol) && IsEol(blank) && forall l :: l in lines ==> Renderable(l)
    ensures Fields(eol + (RenderLines(lines) + (blank + rest))) == Some(ParseAll(lines))
    decreases |lines|
  {
    hide LastColon, ParseLine, RunLen;
    if lines == [] {
      assert RenderLines(lines) + (blank + rest) == blank + rest;
      EolThenEol(eol, blank, rest);
    } else {
      var l, more := lines[0], RenderLines(lines[1..]) + (blank + rest);
      assert l in lines;
      TextIsALine(l);
      var text, after := Text(l), l.eol + more;
      RenderMore(lines, blank + rest);
      FieldsOfRendered(l.eol, lines[1..], blank, rest);
      FieldsStep(eol, text, after);
    }
  }

  /** A line whose last colon is its first byte ends the header like a blank line: nothing
      of it or after it is read. */
  lemma NamelessLineStops(eol: string, value: string, after: string)
    requires IsEol(eol) && OneLine(value) && COLON !in value && EolLen(after) > 0
    ensures Fields(eol + ((":" + value) + after)) == Some([])
    ensures FieldsRest(eol + ((":" + value) + after)) == after
  {
    hide EolLen, RunLen;
    var line := ":" + value;
    assert line[0] == COLON && |line| > 0;
    LastColonFirst(value);
    EolAlone(eol, line + after);
    RunOfText(line, after);
    assert |line + after| == |line| + |after|;
    NotEmpty(after);
  }

  lemma LastColonFirst(value: string)
    requires COLON !in value
    ensures LastColon(":" + value) == 0
  {
    var line := ":" + value;
    var c := LastColon(line);
    assert line[0] == COLON && forall k :: 0 < k < |line| ==> line[k] == value[k - 1];
  }

  /** What is left in front of the decoder when it stops: the blank line, or its second
      half when a lone LF comes before a CR LF, which it takes for LF CR and LF. */
  function AtBlank(eol: string, lines: seq<HeaderLine>, blank: string, rest: string): string
    requires blank != []
  {
    var last := if lines == [] then eol else lines[|lines| - 1].eol;
    if last == [LF] && blank[0] == CR then blank[1..] + rest else blank + rest
  }

  lemma StopsAtBlank(eol: string, blank: string, rest: string)
    requires IsEol(eol) && IsEol(blank)
    ensures Fields(eol + (blank + rest)) == Some([])
    ensures FieldsRest(eol + (blank + rest)) == AtBlank(eol, [], blank, rest)
  {
    EolThenEol(eol, blank, rest);
    var t := eol + (blank + rest);
    assert t[0] == eol[0] && t[1] == if |eol| == 2 then eol[1] else blank[0];
    assert t[EolLen(t)..] == AtBlank(eol, [], blank, rest);
  }

  /** A rendered block is read up to its blank line and no further. */
  lemma {:induction false} RestOfRendered(eol: string, lines: seq<HeaderLine>, blank: string, rest: string)
    requires IsEol(eol) && IsEol(blank) && forall l :: l in lines ==> Renderable(l)
    ensures var t := eol + (RenderLines(lines) + (blank + rest));
      Fields(t).Some? && FieldsRest(t) == AtBlank(eol, lines, blank, rest)
    decreases |lines|
  {
    hide LastColon, ParseLine, RunLen, EolLen, FieldsRest;
    FieldsOfRendered(eol, lines, blank, rest);
    if lines == [] {
      assert RenderLines(lines) + (blank + rest) == blank + rest;
      StopsAtBlank(eol, blank, rest);
    } else {
      var l, more := lines[0], RenderLines(lines[1..]) + (blank + rest);
      assert l in lines;
      TextIsALine(l);
      RenderMore(lines, blank + rest);
      RestOfRendered(l.eol, lines[1..], blank, rest);
      EolIsRead(l.eol, more);
      FieldsStep(eol, Text(l), l.eol + more);
    }
  }

  lemma EolIsRead(eol: string, more: string)
    requires IsEol(eol)
    ensures EolLen(eol + more) > 0
  {
  }

  lemma RenderMore(lines: seq<HeaderLine>, tail: string)
    requires lines != []
    ensures RenderLines(lines) + tail == Text(lines[0]) + (lines[0].eol + (RenderLines(lines[1..]) + tail))
  {
  }

  /** A whole block: nothing of the first line, and every header line. */
  lemma BlockIsRead(first: string, eol: string, lines: seq<HeaderLine>, blank: string, rest: string)
    requires first != [] && OneLine(first) && IsEol(eol) && IsEol(blank)
    requires forall l :: l in lines ==> Renderable(l)
    ensures BlockFields(Block(first, eol, lines, blank, rest)) == Some(ParseAll(lines))
  {
    var after := eol + (RenderLines(lines) + (blank + rest));
    assert EolLen(after) > 0;
    RunOfText(first, after);
    assert (first + after)[0..] == first + after;
    FieldsOfRendered(eol, lines, blank, rest);
  }

  /** So after the whole block the decoder stands at the blank line. */
  lemma BlockEndsAtBlank(first: string, eol: string, lines: seq<HeaderLine>, blank: string, rest: string)
    requires first != [] && OneLine(first) && IsEol(eol) && IsEol(blank)
    requires forall l :: l in lines ==> Renderable(l)
    ensures BlockFields(Block(first, eol, lines, blank, rest)).Some?
    ensures BlockRest(Block(first, eol, lines, blank, rest)) == AtBlank(eol, lines, blank, rest)
  {
    var after := eol + (RenderLines(lines) + (blank + rest));
    EolIsRead(eol, RenderLines(lines) + (blank + rest));
    RunOfText(first, after);
    assert (first + after)[0..] == first + after;
    RestOfRendered(eol, lines, blank, rest);
  }

  // ---------- what survives ----------

  lemma {:induction false} SkipsSpaces(n: nat, v: string)
    requires v == "" || v[0] != SPACE
    ensures SkipSpaces(Spaces(n) + v) == v
  {
    if n == 0 {
      assert Spaces(0) + v == v;
    } else {
      SkipsSpaces(n - 1, v);
      assert (Spaces(n) + v)[1..] == Spaces(n - 1) + v;
    }
  }

  /** A line is read back as the field it renders exactly when its value holds no
      colon: the decoder ends the name at the last colon of the line, not at the
      first as section 3.2 of RFC 7230 has it. */
  lemma ParseIsRightIff(l: HeaderLine)
    requires Renderable(l)
    ensures LastColon(Text(l)) >= 0
    ensures ParseLine(Text(l)) == Field(l.name, l.value) <==> COLON !in l.value
  {
    hide LastColon, SkipSpaces, UpToNul;
    TextIsALine(l);
    TextParts(l);
    var c, n := LastColon(Text(l)), |l.name|;
    if COLON in l.value {
      ColonEndsLater(l);
    } else {
      assert Text(l)[c + 1..] == Spaces(l.spaces) + l.value;
      SkipsSpaces(l.spaces, l.value);
      NoNul(l.name);
      NoNul(l.value);
    }
  }

  /** With a colon in the value, what is read as the name goes on into the value. */
  lemma ColonEndsLater(l: HeaderLine)
    requires Renderable(l) && COLON in l.value
    ensures LastColon(Text(l)) > |l.name|
    ensures |ParseLine(Text(l)).name| > |l.name| && COLON in ParseLine(Text(l)).name
  {
    hide LastColon, SkipSpaces, UpToNul;
    TextIsALine(l);
    TextParts(l);
    var c, n := LastColon(Text(l)), |l.name|;
    var k :| 0 <= k < |l.value| && l.value[k] == COLON;
    assert Text(l)[n + 1 + l.spaces + k] == Text(l)[n + 1..][l.spaces + k] == COLON;
    assert NUL !in Text(l);
    NoNul(Text(l)[..c]);
    assert Text(l)[..c][n] == COLON;
  }

  lemma NoColon1()
    ensures forall i :: 0 <= i < |Names1()| ==> COLON !in Names1()[i]
  {
  }

  lemma NoColon2()
    ensures forall i :: 0 <= i < |Names2()| ==> COLON !in Names2()[i]
  {
  }

  lemma NoColon3()
    ensures forall i :: 0 <= i < |Names3()| ==> COLON !in Names3()[i]
  {
  }

  lemma NoColon4()
    ensures forall i :: 0 <= i < |Names4()| ==> COLON !in Names4()[i]
  {
  }

  lemma NoColon5()
    ensures forall i :: 0 <= i < |Names5()| ==> COLON !in Names5()[i]
  {
  }

  lemma NoColon6()
    ensures forall i :: 0 <= i < |Names6()| ==> COLON !in Names6()[i]
  {
  }

  lemma NoColon7()
    ensures forall i :: 0 <= i < |Names7()| ==> COLON !in Names7()[i]
  {
  }

  lemma NoColon8()
    ensures forall i :: 0 <= i < |Names8()| ==> COLON !in Names8()[i]
  {
  }

  lemma NoColon9()
    ensures forall i :: 0 <= i < |Names9()| ==> COLON !in Names9()[i]
  {
  }

  lemma NamesHaveNoColon()
    ensures forall i :: 0 <= i < |HeaderStrings()| ==> COLON !in HeaderStrings()[i]
  {
    NoColon1(); NoColon2(); NoColon3(); NoColon4(); NoColon5(); NoColon6(); NoColon7(); NoColon8(); NoColon9();
  }

  /** The fields that come back: those of the lines without a colon in the value. */
  function Kept(lines: seq<HeaderLine>): seq<Field> {
    if lines == [] then []
    else (if COLON !in lines[0].value then [Field(lines[0].name, lines[0].value)] else []) + Kept(lines[1..])
  }

  lemma {:induction false} ValuesOfConcat(f: seq<Field>, g: seq<Field>, name: string)
    ensures ValuesOf(f + g, name) == ValuesOf(f, name) + ValuesOf(g, name)
  {
    if f == [] {
      assert f + g == g;
    } else {
      assert (f + g)[1..] == f[1..] + g;
      ValuesOfConcat(f[1..], g, name);
      var head, x, y := if f[0].name == name then [f[0].value] else [], ValuesOf(f[1..], name), ValuesOf(g, name);
      assert (head + x) + y == head + (x + y);
    }
  }

  /** For every known name, the values read are those of its lines without a colon in
      the value, in order; a line with one is lost altogether. */
  lemma {:induction false} KnownValues(lines: seq<HeaderLine>, name: string)
    requires forall l :: l in lines ==> Renderable(l)
    requires name in HeaderStrings()
    ensures ValuesOf(ParseAll(lines), name) == ValuesOf(Kept(lines), name)
  {
    hide ParseLine, HeaderStrings;
    if lines != [] {
      var l := lines[0];
      assert l in lines;
      TextIsALine(l);
      ParseIsRightIff(l);
      KnownValues(lines[1..], name);
      NamesHaveNoColon();
      if COLON in l.value { ColonEndsLater(l); }
      ValuesOfConcat([ParseLine(Text(l))], ParseAll(lines[1..]), name);
      ValuesOfConcat(if COLON !in l.value then [Field(l.name, l.value)] else [], Kept(lines[1..]), name);
    }
  }

  /** Storing fields appends to each stack the values of its name, and to no other. */
  lemma {:induction false} StoreHolds(stacks: seq<seq<string>>, fields: seq<Field>, i: nat)
    requires |stacks| == |HeaderStrings()| && i < |stacks|
    ensures Store(stacks, fields)[i] == stacks[i] + ValuesOf(fields, HeaderStrings()[i])
    decreases |fields|
  {
    hide HeaderStrings, IndexOf, ValuesOf;
    ValuesOfFirst(fields, HeaderStrings()[i]);
    if fields != [] {
      var k, f := IndexOf(HeaderStrings(), fields[0].name), fields[0];
      KnownIndex(f.name, i);
      StoreHolds(if k >= 0 then stacks[k := stacks[k] + [f.value]] else stacks, fields[1..], i);
      var more := ValuesOf(fields[1..], HeaderStrings()[i]);
      assert (stacks[i] + [f.value]) + more == stacks[i] + ([f.value] + more);
    }
  }

  lemma ValuesOfFirst(fields: seq<Field>, name: string)
    ensures fields == [] ==> ValuesOf(fields, name) == []
    ensures fields != [] && fields[0].name == name ==>
      ValuesOf(fields, name) == [fields[0].value] + ValuesOf(fields[1..], name)
    ensures fields != [] && fields[0].name != name ==> ValuesOf(fields, name) == ValuesOf(fields[1..], name)
  {
  }

  /** Decoding undoes rendering: for any first line, any header lines and any mixture
      of line ends, each stack receives, in order, exactly the values of the lines of
      its name; unknown names leave nothing, and values with a colon are lost. */
  lemma DecodingUndoesRendering(first: string, eol: string, lines: seq<HeaderLine>, blank: string, rest: string,
                                stacks: seq<seq<string>>, i: nat)
    requires first != [] && OneLine(first) && IsEol(eol) && IsEol(blank)
    requires forall l :: l in lines ==> Renderable(l)
    requires |stacks| == |HeaderStrings()| && i < |stacks|
    ensures BlockFields(Block(first, eol, lines, blank, rest)).Some?
    ensures Store(stacks, BlockFields(Block(first, eol, lines, blank, rest)).value)[i]
         == stacks[i] + ValuesOf(Kept(lines), HeaderStrings()[i])
  {
    hide HeaderStrings, BlockFields, Block;
    BlockIsRead(first, eol, lines, blank, rest);
    StoreHolds(stacks, ParseAll(lines), i);
    KnownValues(lines, HeaderStrings()[i]);
  }
}
