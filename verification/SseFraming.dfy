/**
 Server-sent events on the wire: an incremental decoder that may be fed any chunks, and
 the encoder that frames an event again (pep/mcp_proxy/framing.py).
 */
module SseFraming {
  import opened Wrappers
  import opened Strings

  datatype Event = Event(data: string, name: string, id: Option<string>, retry: Option<int>)

  datatype Field = Field(name: string, value: string)

  predicate IsBreak(c: char) {
    c == '\r' || c == '\n'
  }

  // --- lines -------------------------------------------------------------------

  /** Where the first line terminator starts; the length if there is none. */
  function FirstBreak(s: string): (i: nat)
    ensures i <= |s| && (forall k | 0 <= k < i :: !IsBreak(s[k])) && (i < |s| ==> IsBreak(s[i]))
  {
    if s == "" || IsBreak(s[0]) then 0 else 1 + FirstBreak(s[1..])
  }

  /** Where that terminator ends: CRLF is one terminator. */
  function BreakEnd(s: string, i: nat): (end: nat)
    requires i < |s|
    ensures i < end <= |s|
  {
    if s[i] == '\r' && i + 1 < |s| && s[i + 1] == '\n' then i + 2 else i + 1
  }

  datatype Cut = Cut(line: string, rest: string)

  /** The first terminated line and what follows its terminator. */
  function CutLine(s: string): (r: Option<Cut>)
    ensures r.Some? ==> |r.value.rest| < |s|
  {
    var i := FirstBreak(s);
    if i == |s| then None else Some(Cut(s[..i], s[BreakEnd(s, i)..]))
  }

  /** The first line known to be complete: a CR that ends the text may be half of a CRLF. */
  function NextLine(s: string): (r: Option<Cut>)
    ensures r.Some? ==> |r.value.rest| < |s|
  {
    var i := FirstBreak(s);
    if i == |s| || (s[i] == '\r' && i + 1 == |s|) then None else CutLine(s)
  }

  /** Every line of a text, the unterminated last one included. */
  function Split(s: string): (r: seq<string>)
    decreases |s|
    ensures r != []
  {
    match CutLine(s) case None => [s] case Some(cut) => [cut.line] + Split(cut.rest)
  }

  function FirstColon(s: string): (i: nat)
    ensures i <= |s| && (forall k | 0 <= k < i :: s[k] != ':') && (i < |s| ==> s[i] == ':')
  {
    if s == "" || s[0] == ':' then 0 else 1 + FirstColon(s[1..])
  }

  /** A field name and value; one space after the colon is framing. */
  function ParseField(line: string): Field {
    var i := FirstColon(line);
    if i == |line| then Field(line, "")
    else
      var value := line[i + 1..];
      Field(line[..i], if value != "" && value[0] == ' ' then value[1..] else value)
  }

  // --- events --------------------------------------------------------------------

  function Values(fields: seq<Field>, name: string): seq<string> {
    if fields == [] then []
    else (if fields[0].name == name then [fields[0].value] else []) + Values(fields[1..], name)
  }

  function First(fields: seq<Field>, name: string): Option<string> {
    if fields == [] then None
    else if fields[0].name == name then Some(fields[0].value) else First(fields[1..], name)
  }

  function Join(lines: seq<string>): string {
    if lines == [] then "" else if |lines| == 1 then lines[0] else lines[0] + "\n" + Join(lines[1..])
  }

  predicate AllDigits(s: string) {
    s != "" && forall c | c in s :: IsDigit(c)
  }

  function Build(fields: seq<Field>): Option<Event> {
    var dataLines := Values(fields, "data");
    if dataLines == [] then None
    else
      var name := First(fields, "event");
      var retry := First(fields, "retry");
      Some(Event(Join(dataLines),
                 if name == None || name.value == "" then "message" else name.value,
                 First(fields, "id"),
                 if retry.Some? && AllDigits(retry.value) then Some(Value(retry.value)) else None))
  }

  function Dispatch(fields: seq<Field>): seq<Event> {
    match Build(fields) case Some(e) => [e] case None => []
  }

  // --- the decoder -----------------------------------------------------------------

  datatype Decoded = Decoded(events: seq<Event>, buffer: string, fields: seq<Field>) {
    function Then(next: Decoded): Decoded {
      next.(events := events + next.events)
    }
  }

  /** What one complete line does: end an event, nothing (a comment), or add a field. */
  function TakeLine(line: string, fields: seq<Field>): Decoded {
    if line == "" then Decoded(Dispatch(fields), "", [])
    else if line[0] == ':' then Decoded([], "", fields)
    else Decoded([], "", fields + [ParseField(line)])
  }

  /** What a decoder in this state makes of its buffer. */
  function Run(buffer: string, fields: seq<Field>): Decoded
    decreases |buffer|
  {
    match NextLine(buffer)
    case None => Decoded([], buffer, fields)
    case Some(cut) =>
      var taken := TakeLine(cut.line, fields);
      taken.Then(Run(cut.rest, taken.fields))
  }

  function FieldsOf(lines: seq<string>): seq<Field> {
    if lines == [] then []
    else (if lines[0] != "" && lines[0][0] != ':' then [ParseField(lines[0])] else []) + FieldsOf(lines[1..])
  }

  /** The event left when the stream ends. */
  function Closing(buffer: string, fields: seq<Field>): seq<Event> {
    Dispatch(fields + FieldsOf(Split(buffer)))
  }

  lemma {:induction false} FieldsOfSnoc(lines: seq<string>, line: string)
    ensures FieldsOf(lines + [line]) ==
            FieldsOf(lines) + if line != "" && line[0] != ':' then [ParseField(line)] else []
  {
    hide ParseField;
    if lines != [] {
      FieldsOfSnoc(lines[1..], line);
      assert (lines + [line])[1..] == lines[1..] + [line];
    }
  }

  lemma RunWaits(buffer: string, fields: seq<Field>)
    requires NextLine(buffer) == None
    ensures Run(buffer, fields) == Decoded([], buffer, fields)
  {}

  lemma RunStep(buffer: string, fields: seq<Field>, cut: Cut, events: seq<Event>)
    requires NextLine(buffer) == Some(cut)
    ensures var taken := TakeLine(cut.line, fields);
      && Run(buffer, fields) == taken.Then(Run(cut.rest, taken.fields))
      && Decoded(events, buffer, fields).Then(Run(buffer, fields)) ==
         Decoded(events + taken.events, cut.rest, taken.fields).Then(Run(cut.rest, taken.fields))
  {
    var taken := TakeLine(cut.line, fields);
    var rest := Run(cut.rest, taken.fields);
    assert events + (taken.events + rest.events) == (events + taken.events) + rest.events;
  }

  lemma NothingBuffered(fields: seq<Field>)
    ensures FieldsOf([]) == [] && Closing("", fields) == Dispatch(fields)
  {
    hide Dispatch;
    assert Split("") == [""] && fields + FieldsOf([""]) == fields;
  }

  class SSEDecoder {
    var buffer: string
    var fields: seq<Field>

    constructor ()
      ensures buffer == "" && fields == []
    {
      buffer, fields := "", [];
    }

    method Feed(chunk: string) returns (events: seq<Event>)
      modifies this
      ensures Decoded(events, buffer, fields) == Run(old(buffer) + chunk, old(fields))
    {
      hide Run, ParseField, Dispatch;
      buffer := buffer + chunk;
      events := [];
      ghost var whole := Run(buffer, fields);
      while true
        invariant Decoded(events, buffer, fields).Then(Run(buffer, fields)) == whole
        decreases |buffer|
      {
        var start := FirstBreak(buffer);
        if start == |buffer| {
          RunWaits(buffer, fields);
          return;
        }
        var end := BreakEnd(buffer, start);
        if buffer[|buffer| - 1] == '\r' && end == |buffer| {
          RunWaits(buffer, fields);
          return;
        }
        var line := buffer[..start];
        assert NextLine(buffer) == Some(Cut(line, buffer[end..]));
        RunStep(buffer, fields, Cut(line, buffer[end..]), events);
        buffer := buffer[end..];
        if line == "" {
          events := events + Dispatch(fields);
          fields := [];
        } else if line[0] != ':' {
          fields := fields + [ParseField(line)];
        }
      }
    }

    method Close() returns (events: seq<Event>)
      modifies this
      ensures events == Closing(old(buffer), old(fields))
      ensures buffer == "" && fields == []
    {
      hide FieldsOf, Split, ParseField, Dispatch;
      NothingBuffered(fields);
      if buffer != "" {
        var lines := Split(buffer);
        assert lines[..0] == [] && fields + [] == fields;
        for i := 0 to |lines|
          invariant fields == old(fields) + FieldsOf(lines[..i])
        {
          var line := lines[i];
          FieldsOfSnoc(lines[..i], line);
          assert lines[..i + 1] == lines[..i] + [line];
          if line != "" && line[0] != ':' {
            fields := fields + [ParseField(line)];
          }
        }
        assert lines[..|lines|] == lines;
        buffer := "";
      }
      events := Dispatch(fields);
      fields := [];
    }
  }

  /** Decoding a whole body, and what it is in terms of a decoder. */
  method IterSse(body: string) returns (events: seq<Event>)
    ensures events == Whole(body)
  {
    var decoder := new SSEDecoder();
    var fed := decoder.Feed(body);
    assert "" + body == body;
    var last := decoder.Close();
    events := fed + last;
  }

  function Whole(body: string): seq<Event> {
    var d := Run(body, []);
    d.events + Closing(d.buffer, d.fields)
  }

  // --- chunks do not matter ----------------------------------------------------------

  lemma NextLineExtends(b: string, a: string)
    requires NextLine(b).Some?
    ensures NextLine(b + a) == Some(Cut(NextLine(b).value.line, NextLine(b).value.rest + a))
  {
    var i, j := FirstBreak(b), FirstBreak(b + a);
    assert (b + a)[i] == b[i];
    assert j < |b| ==> (b + a)[j] == b[j];
    assert i == j;
    var end := BreakEnd(b, i);
    assert i + 1 < |b| ==> (b + a)[i + 1] == b[i + 1];
    assert BreakEnd(b + a, i) == end;
    assert (b + a)[..i] == b[..i] && (b + a)[end..] == b[end..] + a;
  }

  /** Feeding a then b is feeding a + b: the same events, and the same state left behind,
      wherever the cut falls, the middle of a CRLF included. */
  lemma {:induction false} FeedSplits(b: string, a: string, fields: seq<Field>)
    ensures var d := Run(b, fields); Run(b + a, fields) == d.Then(Run(d.buffer + a, d.fields))
    decreases |b|
  {
    hide NextLine, TakeLine;
    if NextLine(b).Some? {
      var cut := NextLine(b).value;
      var taken := TakeLine(cut.line, fields);
      NextLineExtends(b, a);
      FeedSplits(cut.rest, a, taken.fields);
      var d := Run(cut.rest, taken.fields);
      RunStep(b + a, fields, Cut(cut.line, cut.rest + a), []);
      RunStep(b, fields, cut, []);
      ThenAssociates(taken, d, Run(d.buffer + a, d.fields));
    } else {
      RunWaits(b, fields);
    }
  }

  lemma ThenAssociates(x: Decoded, y: Decoded, z: Decoded)
    ensures x.Then(y.Then(z)) == x.Then(y).Then(z)
  {
    assert x.events + (y.events + z.events) == (x.events + y.events) + z.events;
  }

  lemma {:induction false} RunLeavesPartialLine(b: string, fields: seq<Field>)
    ensures NextLine(Run(b, fields).buffer) == None
    decreases |b|
  {
    hide NextLine, TakeLine;
    if NextLine(b).Some? {
      RunLeavesPartialLine(NextLine(b).value.rest, TakeLine(NextLine(b).value.line, fields).fields);
    }
  }

  /** A decoder fed one chunk after another. */
  function FeedAll(chunks: seq<string>, buffer: string, fields: seq<Field>): Decoded {
    if chunks == [] then Decoded([], buffer, fields)
    else
      var d := Run(buffer + chunks[0], fields);
      d.Then(FeedAll(chunks[1..], d.buffer, d.fields))
  }

  /** However a text is cut into chunks, feeding them is feeding the text. */
  lemma {:induction false} ChunkingIsIrrelevant(chunks: seq<string>, buffer: string, fields: seq<Field>)
    requires NextLine(buffer) == None
    ensures FeedAll(chunks, buffer, fields) == Run(buffer + Concat(chunks), fields)
  {
    hide NextLine, Run;
    if chunks == [] {
      assert buffer + "" == buffer;
      RunWaits(buffer, fields);
    } else {
      var d := Run(buffer + chunks[0], fields);
      RunLeavesPartialLine(buffer + chunks[0], fields);
      ChunkingIsIrrelevant(chunks[1..], d.buffer, d.fields);
      FeedSplits(buffer + chunks[0], Concat(chunks[1..]), fields);
      assert buffer + Concat(chunks) == buffer + chunks[0] + Concat(chunks[1..]);
    }
  }

  // --- line terminators do not matter -------------------------------------------------

  /** The events of a list of lines, by the rules for one line at a time. */
  function Process(lines: seq<string>, fields: seq<Field>): seq<Event> {
    if lines == [] then []
    else
      var taken := TakeLine(lines[0], fields);
      taken.events + Process(lines[1..], taken.fields)
  }

  lemma ProcessCons(line: string, lines: seq<string>, fields: seq<Field>)
    ensures Process([line] + lines, fields) ==
            TakeLine(line, fields).events + Process(lines, TakeLine(line, fields).fields)
  {
    hide TakeLine;
    assert ([line] + lines)[1..] == lines;
  }

  lemma BlankLines()
    ensures Dispatch([]) == [] && Process([""], []) == [] && Process(["", ""], []) == []
  {
    ProcessCons("", [], []);
    ProcessCons("", [""], []);
  }

  lemma ProcessTwo(line: string, fields: seq<Field>)
    ensures Process([line, ""], fields) == TakeLine(line, fields).events + Dispatch(TakeLine(line, fields).fields)
    ensures Process([line, "", ""], fields) == Process([line, ""], fields)
  {
    hide TakeLine, Process, Build;
    var taken := TakeLine(line, fields);
    BlankLines();
    ProcessCons(line, [""], fields);
    ProcessCons(line, ["", ""], fields);
    ProcessBlank([], taken.fields);
    ProcessBlank([""], taken.fields);
    assert [line] + [""] == [line, ""] && [line] + ["", ""] == [line, "", ""];
    assert [""] + [""] == ["", ""] && [""] + [] == [""];
  }

  lemma ProcessBlank(lines: seq<string>, fields: seq<Field>)
    ensures Process([""] + lines, fields) == Dispatch(fields) + Process(lines, [])
    ensures lines == [] ==> Process([""] + lines, fields) == Dispatch(fields)
  {
    hide Build, Process;
    ProcessCons("", lines, fields);
    if lines == [] {
      assert Dispatch(fields) + [] == Dispatch(fields);
      NoLines();
    }
  }

  lemma NoLines()
    ensures Process([], []) == []
  {}

  /** A last line ended by the stream is a last line ended by a blank one. */
  lemma LastLine(line: string, fields: seq<Field>)
    ensures Dispatch(fields + FieldsOf([line])) == Process([line, ""], fields)
    ensures Process([line, "", ""], fields) == Process([line, ""], fields)
    ensures FieldsOf([line, ""]) == FieldsOf([line])
  {
    hide ParseField, Build, Process;
    ProcessTwo(line, fields);
    FieldsOfSnoc([], line);
    FieldsOfSnoc([line], "");
    assert [] + [line] == [line] && [line] + [""] == [line, ""] && fields + [] == fields;
    assert Dispatch([]) == [] by {
      BlankLines();
    }
    var own := if line != "" && line[0] != ':' then [ParseField(line)] else [];
    assert FieldsOf([]) == [] && FieldsOf([line]) == own;
    assert [] + Dispatch(fields + own) == Dispatch(fields + own) && Dispatch(fields) + [] == Dispatch(fields);
  }

  lemma UncutText(b: string)
    requires NextLine(b) == None
    ensures Split(b) == [b] || (CutLine(b).Some? && Split(b) == [CutLine(b).value.line, ""])
  {
    assert FirstBreak("") == 0;
  }

  /** A decoder that runs and is then closed processes the lines of its buffer, whatever
      ends them, and one blank line more. */
  lemma {:induction false} RunIsProcess(b: string, fields: seq<Field>)
    ensures var d := Run(b, fields);
      d.events + Closing(d.buffer, d.fields) == Process(Split(b) + [""], fields)
    decreases |b|
  {
    hide TakeLine, ParseField, Build, FirstBreak, BreakEnd, Process;
    match NextLine(b) {
      case None =>
        UncutText(b);
        var line := if Split(b) == [b] then b else CutLine(b).value.line;
        LastLine(line, fields);
        assert [b] + [""] == [b, ""] && [line, ""] + [""] == [line, "", ""];
        RunWaits(b, fields);
      case Some(cut) =>
        var taken := TakeLine(cut.line, fields);
        RunIsProcess(cut.rest, taken.fields);
        RunStep(b, fields, cut, []);
        ProcessCons(cut.line, Split(cut.rest) + [""], fields);
        assert Split(b) + [""] == [cut.line] + (Split(cut.rest) + [""]);
        var d := Run(cut.rest, taken.fields);
        assert taken.events + (d.events + Closing(d.buffer, d.fields))
            == (taken.events + d.events) + Closing(d.buffer, d.fields);
    }
  }

  /** Closing is the same as being sent two more newlines. */

  lemma CloseIsBlankLine(buffer: string, fields: seq<Field>)
    requires NextLine(buffer) == None
    ensures Run(buffer + "\n\n", fields) == Decoded(Closing(buffer, fields), "", [])
  {
    hide Build, ParseField, Process, TakeLine, Dispatch, FieldsOf, FirstBreak, Run;
    var all := buffer + "\n\n";
    var line := buffer[..FirstBreak(buffer)];
    CutWithNewlines(buffer);
    if FirstBreak(buffer) < |buffer| {
      CutAtFinalCr(buffer);
    }
    var taken := TakeLine(line, fields);
    RunStep(all, fields, Cut(line, "\n"), []);
    RunNewline(taken.fields);
    UncutText(buffer);
    LastLine(line, fields);
    ProcessTwo(line, fields);
  }

  lemma CutWithNewlines(buffer: string)
    requires NextLine(buffer) == None
    ensures NextLine(buffer + "\n\n") == Some(Cut(buffer[..FirstBreak(buffer)], "\n"))
  {
    hide FirstBreak;
    var i := FirstBreak(buffer);
    if i < |buffer| {
      assert buffer == buffer[..i] + "\r";
      CutAtBreak(buffer[..i], "\r\n", "\n");
      assert buffer + "\n\n" == buffer[..i] + "\r\n" + "\n";
    } else {
      assert buffer[..i] == buffer;
      CutAtBreak(buffer, "\n", "\n");
      assert buffer + "\n\n" == buffer + "\n" + "\n";
    }
  }

  lemma CutAtBreak(line: string, newline: string, rest: string)
    requires (newline == "\n" || newline == "\r\n") && forall k | 0 <= k < |line| :: !IsBreak(line[k])
    ensures NextLine(line + newline + rest) == Some(Cut(line, rest))
  {
    hide FirstBreak;
    var s := line + newline + rest;
    var i := FirstBreak(s);
    assert s[|line|] == newline[0] && s[|line| + |newline| - 1] == '\n';
    assert forall k | 0 <= k < |line| :: s[k] == line[k];
    assert i == |line|;
    assert s[..i] == line && s[i + |newline|..] == rest;
  }

  lemma CutAtFinalCr(buffer: string)
    requires NextLine(buffer) == None && FirstBreak(buffer) < |buffer|
    ensures CutLine(buffer) == Some(Cut(buffer[..FirstBreak(buffer)], ""))
  {
    assert buffer[|buffer|..] == "";
  }

  lemma RunNewline(fields: seq<Field>)
    ensures Run("\n", fields) == Decoded(Dispatch(fields), "", [])
  {
    assert NextLine("\n") == Some(Cut("", "")) by {
      assert FirstBreak("\n") == 0 && "\n"[..0] == "" && "\n"[1..] == "";
    }
    RunStep("\n", fields, Cut("", ""), []);
    RunWaits("", []);
  }

  predicate CrFree(s: string) {
    forall c | c in s :: c != '\r'
  }

  /** The text with every LF written as another terminator. */
  function Rewrite(text: string, newline: string): string {
    if text == "" then ""
    else (if text[0] == '\n' then newline else [text[0]]) + Rewrite(text[1..], newline)
  }

  /** Cutting the first line off commutes with rewriting the terminators. */
  lemma {:induction false} RewriteCut(text: string, newline: string)
    requires CrFree(text) && (newline == "\r" || newline == "\r\n")
    ensures match CutLine(text)
            case None => CutLine(Rewrite(text, newline)) == None && Rewrite(text, newline) == text
            case Some(cut) => CutLine(Rewrite(text, newline)) == Some(Cut(cut.line, Rewrite(cut.rest, newline)))
  {
    var r := Rewrite(text, newline);
    if text != "" {
      assert text[0] in text && forall c | c in text[1..] :: c in text;
      var tail := Rewrite(text[1..], newline);
      if text[0] == '\n' {
        assert tail == "" || tail[0] != '\n';
        assert r == newline + tail;
        assert r[0] == '\r' && FirstBreak(r) == 0 && BreakEnd(r, 0) == |newline|;
        assert r[|newline|..] == tail && r[..0] == "" && text[..0] == "";
      } else {
        RewriteCut(text[1..], newline);
        assert r[0] == text[0] && r[1..] == tail;
        CutAfter(text);
        CutAfter(r);
      }
    }
  }

  lemma CutAfter(s: string)
    requires s != "" && !IsBreak(s[0])
    ensures match CutLine(s[1..])
            case None => CutLine(s) == None
            case Some(cut) => CutLine(s) == Some(Cut([s[0]] + cut.line, cut.rest))
  {
    var i := FirstBreak(s[1..]);
    assert FirstBreak(s) == i + 1;
    if i < |s[1..]| {
      assert s[..i + 1] == [s[0]] + s[1..][..i];
      assert BreakEnd(s, i + 1) == BreakEnd(s[1..], i) + 1;
      assert s[BreakEnd(s, i + 1)..] == s[1..][BreakEnd(s[1..], i)..];
    }
  }

  lemma CutKeepsCrFree(text: string)
    requires CrFree(text) && CutLine(text).Some?
    ensures CrFree(CutLine(text).value.rest)
  {
    var rest := CutLine(text).value.rest;
    forall c | c in rest ensures c in text {}
  }

  lemma {:induction false} RewriteKeepsLines(text: string, newline: string)
    requires CrFree(text) && (newline == "\r" || newline == "\r\n")
    ensures Split(Rewrite(text, newline)) == Split(text)
    decreases |text|
  {
    hide CutLine, Rewrite, CrFree;
    RewriteCut(text, newline);
    if CutLine(text).Some? {
      CutKeepsCrFree(text);
      RewriteKeepsLines(CutLine(text).value.rest, newline);
    }
  }

  /** Section 9.2.5 of WHATWG HTML: a body means the same whichever of the three
      terminators it is written with. */
  lemma TerminatorsAreEquivalent(text: string, newline: string)
    requires CrFree(text) && (newline == "\r" || newline == "\r\n")
    ensures Whole(Rewrite(text, newline)) == Whole(text)
  {
    hide Run, Closing, Split, Rewrite, Process;
    RewriteKeepsLines(text, newline);
    RunIsProcess(text, []);
    RunIsProcess(Rewrite(text, newline), []);
  }

  // --- the encoder ----------------------------------------------------------------------

  function IntText(n: int): string {
    if n < 0 then "-" + Decimal(-n) else Decimal(n)
  }

  /** A text cut at its LFs only, as the encoder cuts the data. */
  function SplitLf(s: string): (r: seq<string>)
    ensures r != []
  {
    if s == "" then [""]
    else
      var rest := SplitLf(s[1..]);
      if s[0] == '\n' then [""] + rest else [[s[0]] + rest[0]] + rest[1..]
  }

  /** The values each field name is given on the wire, in the order written. */
  function Header(e: Event): seq<Field> {
    [Field("event", if e.name != "" && e.name != "message" then e.name else "message")]
    + (if e.id.Some? then [Field("id", e.id.value)] else [])
    + (if e.retry.Some? then [Field("retry", IntText(e.retry.value))] else [])
  }

  function DataFields(values: seq<string>): seq<Field> {
    if values == [] then [] else [Field("data", values[0])] + DataFields(values[1..])
  }

  function AllFields(e: Event): seq<Field> {
    Header(e) + DataFields(SplitLf(e.data))
  }

  function LineOf(f: Field): string {
    f.name + ": " + f.value
  }

  function LinesOf(fields: seq<Field>): seq<string> {
    if fields == [] then [] else [LineOf(fields[0])] + LinesOf(fields[1..])
  }

  function EncodeSse(e: Event): string {
    Join(LinesOf(AllFields(e))) + "\n\n"
  }

  function EncodeAll(events: seq<Event>): string {
    if events == [] then "" else EncodeSse(events[0]) + EncodeAll(events[1..])
  }

  predicate Unbroken(s: string) {
    forall k | 0 <= k < |s| :: !IsBreak(s[k])
  }

  /** What the wire format can carry. */
  predicate WellFormed(e: Event) {
    && e.name != "" && Unbroken(e.name)
    && (e.id.Some? ==> Unbroken(e.id.value))
    && CrFree(e.data)
    && (e.retry.Some? ==> e.retry.value >= 0)
  }

  predicate CleanField(f: Field) {
    && f.name != "" && (forall c | c in f.name :: c != ':' && !IsBreak(c))
    && Unbroken(f.value)
  }

  lemma FieldRoundTrip(f: Field)
    requires CleanField(f)
    ensures ParseField(LineOf(f)) == f
    ensures LineOf(f) != "" && LineOf(f)[0] != ':' && Unbroken(LineOf(f))
  {
    hide LineOf, ParseField, Unbroken;
    LineHasColon(f.name, f.value);
    ParsedAtColon(f.name, f.value);
    LineIsUnbroken(f);
  }

  lemma LineHasColon(name: string, value: string)
    requires forall c | c in name :: c != ':'
    ensures FirstColon(name + ": " + value) == |name|
  {
    var line := name + ": " + value;
    assert line[|name|] == ':';
    forall k | 0 <= k < |name| ensures line[k] != ':' {
      assert line[k] == name[k] && name[k] in name;
    }
  }

  lemma ParsedAtColon(name: string, value: string)
    requires FirstColon(name + ": " + value) == |name|
    ensures ParseField(name + ": " + value) == Field(name, value) && LineOf(Field(name, value)) == name + ": " + value
  {
    hide FirstColon;
    var line, n := name + ": " + value, |name|;
    assert line[..n] == name && line[n + 1..] == " " + value && (" " + value)[1..] == value;
  }

  lemma LineIsUnbroken(f: Field)
    requires CleanField(f)
    ensures LineOf(f) != "" && LineOf(f)[0] != ':' && Unbroken(LineOf(f))
  {
    var line, n := LineOf(f), |f.name|;
    forall k | 0 <= k < |line| ensures !IsBreak(line[k]) {
      if k < n {
        assert line[k] == f.name[k] && f.name[k] in f.name;
      } else if k >= n + 2 {
        assert line[k] == f.value[k - n - 2];
      }
    }
    assert line[0] == f.name[0] && f.name[0] in f.name;
  }

  /** Each line of an encoded event adds its field back, and nothing is emitted before
      the blank line. */
  lemma {:induction false} RunLines(fields: seq<Field>, before: seq<Field>, rest: string)
    requires fields != [] && forall f | f in fields :: CleanField(f)
    ensures Run(Join(LinesOf(fields)) + "\n" + rest, before) == Run(rest, before + fields)
  {
    hide ParseField, LineOf, Run, NextLine, CleanField;
    var line, text := LineOf(fields[0]), Join(LinesOf(fields)) + "\n" + rest;
    FieldRoundTrip(fields[0]);
    if |fields| == 1 {
      assert fields == [fields[0]] && fields[1..] == [];
      assert LinesOf(fields) == [line];
      assert text == line + "\n" + rest;
      CutAtBreak(line, "\n", rest);
      RunStep(text, before, Cut(line, rest), []);
      assert before + [fields[0]] == before + fields;
      EmptyThen(Run(rest, before + fields));
    } else {
      var more := Join(LinesOf(fields[1..])) + "\n" + rest;
      assert LinesOf(fields)[1..] == LinesOf(fields[1..]) && |LinesOf(fields)| > 1;
      assert text == line + "\n" + more;
      CutAtBreak(line, "\n", more);
      RunStep(text, before, Cut(line, more), []);
      RunLines(fields[1..], before + [fields[0]], rest);
      assert before + [fields[0]] + fields[1..] == before + fields;
      EmptyThen(Run(rest, before + fields));
    }
  }

  lemma EmptyThen(d: Decoded)
    ensures Decoded([], "", d.fields).Then(d) == d
    ensures forall fs :: Decoded([], "", fs).Then(d) == d
  {
    assert [] + d.events == d.events;
  }

  lemma {:induction false} SplitLfRoundTrip(s: string)
    ensures Join(SplitLf(s)) == s
  {
    if s != "" {
      SplitLfRoundTrip(s[1..]);
      var rest := SplitLf(s[1..]);
      assert s == [s[0]] + s[1..];
      assert rest == [rest[0]] + rest[1..];
      assert SplitLf(s)[1..] == if s[0] == '\n' then rest else rest[1..];
    }
  }

  lemma {:induction false} SplitLfUnbroken(s: string)
    requires CrFree(s)
    ensures forall line | line in SplitLf(s) :: Unbroken(line)
  {
    if s != "" {
      assert s[0] in s && forall c | c in s[1..] :: c in s;
      SplitLfUnbroken(s[1..]);
      var rest := SplitLf(s[1..]);
      assert rest[0] in rest;
      assert s[0] != '\n' ==> Unbroken([s[0]] + rest[0]);
    }
  }

  lemma {:induction false} DataValues(values: seq<string>)
    ensures Values(DataFields(values), "data") == values
    ensures forall name | name != "data" :: First(DataFields(values), name) == None
    ensures forall f | f in DataFields(values) :: f.name == "data" && f.value in values
  {
    if values != [] {
      DataValues(values[1..]);
      assert DataFields(values)[1..] == DataFields(values[1..]);
    }
  }

  lemma {:induction false} ValuesConcat(a: seq<Field>, b: seq<Field>, name: string)
    ensures Values(a + b, name) == Values(a, name) + Values(b, name)
    ensures First(a + b, name) == if First(a, name) == None then First(b, name) else First(a, name)
  {
    if a == [] {
      assert a + b == b;
    } else {
      ValuesConcat(a[1..], b, name);
      assert (a + b)[0] == a[0] && (a + b)[1..] == a[1..] + b;
      var own := if a[0].name == name then [a[0].value] else [];
      assert own + (Values(a[1..], name) + Values(b, name)) == (own + Values(a[1..], name)) + Values(b, name);
    }
  }

  lemma HeaderValue(event: Field, id: seq<Field>, retry: seq<Field>, key: string)
    requires |id| <= 1 && |retry| <= 1
    ensures Values([event] + (id + retry), key) ==
              (if event.name == key then [event.value] else [])
              + ((if id != [] && id[0].name == key then [id[0].value] else [])
                 + (if retry != [] && retry[0].name == key then [retry[0].value] else []))
    ensures First([event] + (id + retry), key) ==
              if event.name == key then Some(event.value)
              else if id != [] && id[0].name == key then Some(id[0].value)
              else if retry != [] && retry[0].name == key then Some(retry[0].value) else None
  {
    ValuesConcat([event], id + retry, key);
    ValuesConcat(id, retry, key);
  }

  lemma HeaderValues(e: Event)
    ensures var h := Header(e);
      && Values(h, "data") == []
      && First(h, "event") == Some(if e.name != "" then e.name else "message")
      && First(h, "id") == e.id
      && First(h, "retry") == if e.retry == None then None else Some(IntText(e.retry.value))
  {
    var name := Field("event", if e.name != "" && e.name != "message" then e.name else "message");
    var id := if e.id.Some? then [Field("id", e.id.value)] else [];
    var retry := if e.retry.Some? then [Field("retry", IntText(e.retry.value))] else [];
    assert Header(e) == [name] + (id + retry);
    HeaderValue(name, id, retry, "data");
    HeaderValue(name, id, retry, "event");
    HeaderValue(name, id, retry, "id");
    HeaderValue(name, id, retry, "retry");
  }

  /** The fields of an event build that event. */
  lemma BuildRoundTrip(e: Event)
    requires e.name != "" && (e.retry.Some? ==> e.retry.value >= 0)
    ensures Build(AllFields(e)) == Some(e)
  {
    hide Values, First, Header, DataFields;
    var data := DataFields(SplitLf(e.data));
    HeaderValues(e);
    DataValues(SplitLf(e.data));
    SplitLfRoundTrip(e.data);
    ValuesConcat(Header(e), data, "data");
    ValuesConcat(Header(e), data, "event");
    ValuesConcat(Header(e), data, "id");
    ValuesConcat(Header(e), data, "retry");
    assert [] + SplitLf(e.data) == SplitLf(e.data);
    if e.retry.Some? {
      DecimalRoundTrip(e.retry.value);
    }
  }

  lemma FieldsAreClean(e: Event)
    requires WellFormed(e)
    ensures forall f | f in AllFields(e) :: CleanField(f)
  {
    var data := DataFields(SplitLf(e.data));
    DataValues(SplitLf(e.data));
    SplitLfUnbroken(e.data);
    HeaderIsClean(e);
    forall f | f in AllFields(e) ensures CleanField(f) {
      assert f in Header(e) || f in data;
      assert f in data ==> f.name == "data";
    }
  }

  lemma HeaderIsClean(e: Event)
    requires WellFormed(e)
    ensures forall f | f in Header(e) :: CleanField(f)
  {
    if e.retry.Some? {
      var text := Decimal(e.retry.value);
      forall k | 0 <= k < |text| ensures !IsBreak(text[k]) {
        assert text[k] in text;
      }
    }
  }

  lemma DecodeOne(e: Event, rest: string)
    requires WellFormed(e)
    ensures Run(EncodeSse(e) + rest, []) == Decoded([e], "", []).Then(Run(rest, []))
  {
    hide Run, AllFields, Join, LinesOf, WellFormed, Build, NextLine;
    var text := Join(LinesOf(AllFields(e)));
    assert AllFields(e) != [] && Build(AllFields(e)) == Some(e) by {
      WellFormedBuilds(e);
    }
    FieldsAreClean(e);
    RunLines(AllFields(e), [], "\n" + rest);
    assert EncodeSse(e) + rest == text + "\n" + ("\n" + rest);
    assert [] + AllFields(e) == AllFields(e);
    CutAtBreak("", "\n", rest);
    assert "" + "\n" + rest == "\n" + rest;
    RunStep("\n" + rest, AllFields(e), Cut("", rest), []);
  }

  lemma WellFormedBuilds(e: Event)
    requires WellFormed(e)
    ensures AllFields(e) != [] && Build(AllFields(e)) == Some(e)
  {
    BuildRoundTrip(e);
  }

  lemma {:induction false} DecodeAll(events: seq<Event>)
    requires forall e | e in events :: WellFormed(e)
    ensures Run(EncodeAll(events), []) == Decoded(events, "", [])
  {
    hide EncodeSse, WellFormed;
    if events == [] {
      RunWaits("", []);
    } else {
      DecodeOne(events[0], EncodeAll(events[1..]));
      DecodeAll(events[1..]);
      assert events == [events[0]] + events[1..];
    }
  }

  /** Any list of well-formed events, encoded and cut into chunks anywhere, is decoded to
      exactly that list, with nothing left pending. */
  lemma EncodedEventsSurviveAnyChunking(events: seq<Event>, chunks: seq<string>)
    requires forall e | e in events :: WellFormed(e)
    requires Concat(chunks) == EncodeAll(events)
    ensures FeedAll(chunks, "", []) == Decoded(events, "", [])
  {
    hide Run, WellFormed, FeedAll, EncodeAll;
    assert NextLine("") == None;
    ChunkingIsIrrelevant(chunks, "", []);
    assert "" + Concat(chunks) == Concat(chunks);
    DecodeAll(events);
  }

  // --- what the decoder can produce ----------------------------------------------------

  predicate CleanValues(fields: seq<Field>) {
    forall f | f in fields :: Unbroken(f.value)
  }

  lemma {:induction false} JoinedIsCrFree(lines: seq<string>)
    requires forall line | line in lines :: Unbroken(line)
    ensures CrFree(Join(lines))
  {
    if |lines| > 0 {
      var first := lines[0];
      assert first in lines && forall c | c in first :: c != '\r';
      JoinedIsCrFree(lines[1..]);
    }
  }

  lemma {:induction false} ValuesAreClean(fields: seq<Field>, name: string)
    requires CleanValues(fields)
    ensures forall v | v in Values(fields, name) :: Unbroken(v)
    ensures First(fields, name).Some? ==> Unbroken(First(fields, name).value)
  {
    if fields != [] {
      assert fields[0] in fields;
      ValuesAreClean(fields[1..], name);
    }
  }

  lemma BuiltIsWellFormed(fields: seq<Field>)
    requires CleanValues(fields)
    ensures forall e | e in Dispatch(fields) :: WellFormed(e)
  {
    ValuesAreClean(fields, "data");
    ValuesAreClean(fields, "event");
    ValuesAreClean(fields, "id");
    JoinedIsCrFree(Values(fields, "data"));
  }

  lemma TakeLineKeepsClean(line: string, fields: seq<Field>)
    requires Unbroken(line) && CleanValues(fields)
    ensures CleanValues(TakeLine(line, fields).fields)
    ensures forall e | e in TakeLine(line, fields).events :: WellFormed(e)
  {
    if line == "" {
      BuiltIsWellFormed(fields);
    } else if line[0] != ':' {
      assert Unbroken(ParseField(line).value);
    }
  }

  /** Whatever arrives, every event fed out is one the encoder can carry, and what is pending
      stays clean. */
  lemma {:induction false} DecodedIsWellFormed(buffer: string, fields: seq<Field>)
    requires CleanValues(fields)
    ensures forall e | e in Run(buffer, fields).events :: WellFormed(e)
    ensures CleanValues(Run(buffer, fields).fields)
    decreases |buffer|
  {
    hide WellFormed, TakeLine, CleanValues;
    if NextLine(buffer).Some? {
      var cut := NextLine(buffer).value;
      TakeLineKeepsClean(cut.line, fields);
      DecodedIsWellFormed(cut.rest, TakeLine(cut.line, fields).fields);
    }
  }

  lemma {:induction false} SplitIsUnbroken(s: string)
    ensures forall line | line in Split(s) :: Unbroken(line)
    decreases |s|
  {
    if CutLine(s).Some? {
      SplitIsUnbroken(CutLine(s).value.rest);
    }
  }

  lemma {:induction false} FieldsOfAreClean(lines: seq<string>)
    requires forall line | line in lines :: Unbroken(line)
    ensures CleanValues(FieldsOf(lines))
  {
    if lines != [] {
      FieldsOfAreClean(lines[1..]);
      assert lines[0] in lines;
      assert Unbroken(ParseField(lines[0]).value);
    }
  }

  /** Nor is the event left when the stream ends any other. */
  lemma ClosingIsWellFormed(buffer: string, fields: seq<Field>)
    requires CleanValues(fields)
    ensures forall e | e in Closing(buffer, fields) :: WellFormed(e)
  {
    hide WellFormed, Dispatch, Split, FieldsOf;
    SplitIsUnbroken(buffer);
    FieldsOfAreClean(Split(buffer));
    BuiltIsWellFormed(fields + FieldsOf(Split(buffer)));
  }

  /** So every event of every body, the last one included, can be encoded again. */
  lemma WholeIsWellFormed(body: string)
    ensures forall e | e in Whole(body) :: WellFormed(e)
  {
    hide Run, Closing, WellFormed;
    DecodedIsWellFormed(body, []);
    ClosingIsWellFormed(Run(body, []).buffer, Run(body, []).fields);
  }

  /** Exactly the well-formed events round-trip. */
  lemma RoundTripsIffWellFormed(e: Event)
    ensures Run(EncodeSse(e), []) == Decoded([e], "", []) <==> WellFormed(e)
  {
    hide Run, WellFormed, EncodeSse;
    if WellFormed(e) {
      DecodeOne(e, "");
      assert EncodeSse(e) + "" == EncodeSse(e);
      RunWaits("", []);
      assert [e] + [] == [e];
    } else {
      DecodedIsWellFormed(EncodeSse(e), []);
      assert e in [e];
    }
  }

  // --- what a line and an event say -------------------------------------------------------------

  /** A line's field is what stands before its first colon, the value what stands behind it but
      for one space; a line without a colon is a name alone. */
  lemma ParseFieldSays(line: string)
    ensures var f := ParseField(line);
      && ':' !in f.name
      && (':' !in line ==> f == Field(line, ""))
      && (':' in line ==> line == f.name + ":" + f.value || line == f.name + ": " + f.value)
      && (':' in line && line == f.name + ":" + f.value ==> f.value == "" || f.value[0] != ' ')
  {
    var i := FirstColon(line);
    if i < |line| {
      assert line == line[..i] + ":" + line[i + 1..];
      if line[i + 1..] != "" && line[i + 1] == ' ' {
        var f := ParseField(line);
        assert f.value == line[i + 2..];
        assert line == f.name + ": " + f.value;
        assert |f.name + ":" + f.value| == |line| - 1;
      }
    }
  }

  /** The value of the first field of this name. */
  ghost predicate FirstValue(fields: seq<Field>, name: string, value: string) {
    exists i :: 0 <= i < |fields| && fields[i] == Field(name, value) && forall j | 0 <= j < i :: fields[j].name != name
  }

  lemma {:induction false} FirstIs(fields: seq<Field>, name: string)
    ensures First(fields, name) == None <==> forall f | f in fields :: f.name != name
    ensures First(fields, name).Some? ==> FirstValue(fields, name, First(fields, name).value)
  {
    if fields != [] {
      FirstIs(fields[1..], name);
      if fields[0].name != name && First(fields, name).Some? {
        var i :| 0 <= i < |fields[1..]| && fields[1..][i] == Field(name, First(fields, name).value)
                 && forall j | 0 <= j < i :: fields[1..][j].name != name;
        assert fields[i + 1] == Field(name, First(fields, name).value);
        forall j | 0 <= j < i + 1 ensures fields[j].name != name {
          assert j > 0 ==> fields[j] == fields[1..][j - 1];
        }
      }
    }
  }

  lemma {:induction false} ValuesAre(fields: seq<Field>, name: string)
    ensures Values(fields, name) == [] <==> forall f | f in fields :: f.name != name
  {
    if fields != [] {
      ValuesAre(fields[1..], name);
    }
  }

  lemma OneFirst(fields: seq<Field>, name: string, v: string, w: string)
    requires FirstValue(fields, name, v) && FirstValue(fields, name, w)
    ensures v == w
  {}

  /** An event is built exactly from fields with data in them. It is named by the first event
      field, or "message" without one or if that is empty; its id is the first there is; and it
      has a retry time exactly when the first retry field is all digits. */
  lemma BuildSays(fields: seq<Field>)
    ensures Build(fields).Some? <==> exists f :: f in fields && f.name == "data"
    ensures Build(fields).Some? ==>
      var e := Build(fields).value;
      && e.data == Join(Values(fields, "data"))
      && (if exists f :: f in fields && f.name == "event" then
            exists v :: FirstValue(fields, "event", v) && e.name == (if v == "" then "message" else v)
          else e.name == "message")
      && (e.id == None <==> forall f | f in fields :: f.name != "id")
      && (e.id.Some? ==> FirstValue(fields, "id", e.id.value))
      && (e.retry.Some? <==> exists v :: FirstValue(fields, "retry", v) && AllDigits(v))
      && (forall v | FirstValue(fields, "retry", v) && AllDigits(v) :: e.retry == Some(Value(v)))
  {
    hide First, Values, Join, FirstValue, AllDigits;
    ValuesAre(fields, "data");
    FirstIs(fields, "event");
    FirstIs(fields, "id");
    FirstIs(fields, "retry");
    forall v, w | FirstValue(fields, "retry", v) && FirstValue(fields, "retry", w) ensures v == w {
      OneFirst(fields, "retry", v, w);
    }
    forall v | FirstValue(fields, "retry", v) ensures First(fields, "retry").Some? {
      FieldThere(fields, "retry", v);
    }
  }

  lemma FieldThere(fields: seq<Field>, name: string, v: string)
    requires FirstValue(fields, name, v)
    ensures exists f :: f in fields && f.name == name
  {}

  /** A comment line, wherever it stands, changes nothing of what is decoded. */
  lemma {:induction false} CommentsChangeNothing(before: seq<string>, comment: string, after: seq<string>, fields: seq<Field>)
    requires comment != "" && comment[0] == ':'
    ensures Process(before + [comment] + after, fields) == Process(before + after, fields)
  {
    hide ParseField, Dispatch, Process;
    if before == [] {
      assert [] + [comment] + after == [comment] + after && [] + after == after;
      ProcessCons(comment, after, fields);
    } else {
      hide TakeLine;
      var line, rest := before[0], before[1..];
      CommentsChangeNothing(rest, comment, after, TakeLine(line, fields).fields);
      ProcessCons(line, rest + [comment] + after, fields);
      ProcessCons(line, rest + after, fields);
      assert before + [comment] + after == [line] + (rest + [comment] + after);
      assert before + after == [line] + (rest + after);
    }
  }
}
