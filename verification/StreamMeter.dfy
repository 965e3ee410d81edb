/** Usage metering of a proxied event stream (llm_router._proxy_stream_response and
    _parse_stream_usage): chunks pass through while complete lines are searched for a usage payload. */
module StreamMeter {
  import opened Common
  import opened Utf8

  // ---------------------------------------------------------------- text to lines

  /** The boundaries of str.splitlines. */
  predicate IsBreak(c: char) {
    '\n' <= c <= '\r' || 0x1c as char <= c <= 0x1e as char || c == 0x85 as char || c == 0x2028 as char
    || c == 0x2029 as char
  }

  /** The characters removed by str.strip. */
  predicate IsSpace(c: char) {
    '\t' <= c <= '\r' || 0x1c as char <= c <= ' ' || c == 0x85 as char || c == 0xa0 as char || c == 0x1680 as char
    || 0x2000 as char <= c <= 0x200a as char || c == 0x2028 as char || c == 0x2029 as char || c == 0x202f as char
    || c == 0x205f as char || c == 0x3000 as char
  }

  function FirstLine(s: string): (line: string)
    requires s != ""
    ensures 1 <= |line| <= |s| && line <= s
  {
    if IsBreak(s[0]) then
      if s[0] == '\r' && |s| > 1 && s[1] == '\n' then s[..2] else s[..1]
    else if |s| == 1 then s
    else [s[0]] + FirstLine(s[1..])
  }

  /** str.splitlines(keepends=True). */
  function SplitLines(s: string): seq<string>
    decreases |s|
  {
    if s == "" then [] else [FirstLine(s)] + SplitLines(s[|FirstLine(s)|..])
  }

  predicate Closed(line: string) {
    line != "" && (line[|line| - 1] == '\n' || line[|line| - 1] == '\r')
  }

  /** The lines handed to the usage search: all but a last line that does not end in \n or \r. */
  function Terminated(s: string): seq<string> {
    var lines := SplitLines(s);
    if lines == [] || Closed(lines[|lines| - 1]) then lines else lines[..|lines| - 1]
  }

  /** What is left over for the next chunk. */
  function Unterminated(s: string): string {
    var lines := SplitLines(s);
    if lines == [] || Closed(lines[|lines| - 1]) then "" else lines[|lines| - 1]
  }

  // ---------------------------------------------------------------- lines to usage

  function LStrip(s: string): string {
    if s != "" && IsSpace(s[0]) then LStrip(s[1..]) else s
  }

  function RStrip(s: string): string {
    if s != "" && IsSpace(s[|s| - 1]) then RStrip(s[..|s| - 1]) else s
  }

  function Strip(s: string): string { LStrip(RStrip(s)) }

  /** The text after "data:" that a line hands to the parser. */
  function Payload(line: string): Option<string> {
    var stripped := Strip(line);
    if !("data:" <= stripped) then None
    else
      var raw := Strip(stripped[5..]);
      if raw == "[DONE]" then None else Some(raw)
  }

  /** The usage of one line. The parameter stands for json.loads followed by the test that the
      result is an object whose "usage" member is an object. */
  function Usage<P>(parse: string -> Option<P>, line: string): Option<P> {
    if Payload(line).None? then None else parse(Payload(line).value)
  }

  /** The last usage-bearing line. */
  function LastUsage<P>(parse: string -> Option<P>, lines: seq<string>): Option<P> {
    if lines == [] then None
    else
      var later := LastUsage(parse, lines[1..]);
      if later.Some? then later else Usage(parse, lines[0])
  }

  function OrElse<P>(a: Option<P>, b: Option<P>): Option<P> { if a.Some? then a else b }

  // ---------------------------------------------------------------- what a line carries

  predicate Spaces(s: string) { forall i :: 0 <= i < |s| ==> IsSpace(s[i]) }

  /** No space at either end. */
  predicate Trimmed(s: string) { s != "" ==> !IsSpace(s[0]) && !IsSpace(s[|s| - 1]) }

  /** The code points Python calls white space. */
  lemma SpacesListed(c: char)
    ensures IsSpace(c) <==> c as int in {9, 10, 11, 12, 13, 28, 29, 30, 31, 32, 133, 160, 5760, 8192, 8193, 8194, 8195,
                                         8196, 8197, 8198, 8199, 8200, 8201, 8202, 8232, 8233, 8239, 8287, 12288}
  {
  }

  /** The code points at which str.splitlines breaks. */
  lemma BreaksListed(c: char)
    ensures IsBreak(c) <==> c as int in {10, 11, 12, 13, 28, 29, 30, 133, 8232, 8233}
  {
  }

  lemma {:induction false} LStripShape(s: string) returns (u: string)
    ensures Spaces(u) && s == u + LStrip(s) && (LStrip(s) != "" ==> !IsSpace(LStrip(s)[0]))
  {
    u := "";
    if s != "" && IsSpace(s[0]) {
      var v := LStripShape(s[1..]);
      u := [s[0]] + v;
      assert s == [s[0]] + s[1..];
    }
  }

  lemma {:induction false} RStripShape(s: string) returns (w: string)
    ensures Spaces(w) && s == RStrip(s) + w && (RStrip(s) != "" ==> !IsSpace(RStrip(s)[|RStrip(s)| - 1]))
  {
    w := "";
    if s != "" && IsSpace(s[|s| - 1]) {
      var v := RStripShape(s[..|s| - 1]);
      w := v + [s[|s| - 1]];
      assert s == s[..|s| - 1] + [s[|s| - 1]];
    }
  }

  /** Stripping takes spaces off both ends, and all of them. */
  lemma StripShape(s: string) returns (u: string, w: string)
    ensures Spaces(u) && Spaces(w) && s == u + Strip(s) + w && Trimmed(Strip(s))
  {
    w := RStripShape(s);
    u := LStripShape(RStrip(s));
    var kept := Strip(s);
    assert RStrip(s) == u + kept;
    if kept != "" { assert RStrip(s)[|RStrip(s)| - 1] == kept[|kept| - 1]; }
  }

  lemma {:induction false} LStripSkips(u: string, rest: string)
    requires Spaces(u)
    ensures LStrip(u + rest) == LStrip(rest)
  {
    if u == "" {
      assert u + rest == rest;
    } else {
      assert (u + rest)[1..] == u[1..] + rest;
      LStripSkips(u[1..], rest);
    }
  }

  lemma {:induction false} RStripSkips(rest: string, w: string)
    requires Spaces(w)
    ensures RStrip(rest + w) == RStrip(rest)
  {
    if w == "" {
      assert rest + w == rest;
    } else {
      assert (rest + w)[..|rest + w| - 1] == rest + w[..|w| - 1];
      RStripSkips(rest, w[..|w| - 1]);
    }
  }

  /** So it leaves whatever trimmed text stood between spaces. */
  lemma StripOf(u: string, p: string, w: string)
    requires Spaces(u) && Spaces(w) && Trimmed(p)
    ensures Strip(u + p + w) == p
  {
    RStripSkips(u + p, w);
    if p == "" {
      RStripSkips("", u);
      assert u + p == "" + u;
      assert RStrip(u + p) == "";
    } else {
      assert (u + p)[|u + p| - 1] == p[|p| - 1];
      assert RStrip(u + p) == u + p;
      LStripSkips(u, p);
    }
  }

  /** A line that hands the trimmed text p to the parser: "data:" and p, with any spaces before, between and
      after. */
  ghost predicate Carries(line: string, p: string) {
    exists u, v, w :: Spaces(u) && Spaces(v) && Spaces(w) && Trimmed(p) && line == u + "data:" + v + p + w
  }

  lemma CarriedPayload(u: string, v: string, p: string, w: string)
    requires Spaces(u) && Spaces(v) && Spaces(w) && Trimmed(p)
    ensures Payload(u + "data:" + v + p + w) == if p == "[DONE]" then None else Some(p)
  {
    var field := "data:" + (v + p);
    if p == "" {
      assert u + "data:" + v + p + w == u + "data:" + (v + w);
      StripOf(u, "data:", v + w);
      assert "data:"[5..] == "";
      StripOf("", "", "");
    } else {
      assert u + "data:" + v + p + w == u + field + w;
      assert field[|field| - 1] == p[|p| - 1];
      StripOf(u, field, w);
      assert field[5..] == v + p + "";
      StripOf(v, p, "");
    }
  }

  /** What each line hands over, exactly: p if it carries p and p is not "[DONE]", and nothing if it carries
      nothing. */
  lemma PayloadExactly(line: string)
    ensures forall p :: Payload(line) == Some(p) <==> Carries(line, p) && p != "[DONE]"
    ensures forall p, q :: Carries(line, p) && Carries(line, q) ==> p == q
  {
    forall p, u, v, w | Spaces(u) && Spaces(v) && Spaces(w) && Trimmed(p) && line == u + "data:" + v + p + w
      ensures Payload(line) == if p == "[DONE]" then None else Some(p)
    {
      CarriedPayload(u, v, p, w);
    }
    if Payload(line).Some? { PayloadIsCarried(line); }
  }

  lemma PayloadIsCarried(line: string)
    requires Payload(line).Some?
    ensures Carries(line, Payload(line).value)
  {
    var u, w := StripShape(line);
    var stripped := Strip(line);
    var v, x := StripShape(stripped[5..]);
    Regroup(line, u, stripped, w, v, Strip(stripped[5..]), x);
  }

  lemma Regroup(line: string, u: string, stripped: string, w: string, v: string, p: string, x: string)
    requires line == u + stripped + w && "data:" <= stripped && stripped[5..] == v + p + x
    requires Spaces(u) && Spaces(v) && Spaces(w) && Spaces(x) && Trimmed(p)
    ensures Carries(line, p)
  {
    var tail := x + w;
    assert stripped == "data:" + (v + p + x);
    assert line == u + "data:" + v + p + tail;
    assert Spaces(tail);
  }

  /** The usage of a line, for every parser: that of the text it carries, none for "[DONE]", and none for a line
      that carries nothing. */
  lemma UsageExactly<P>(parse: string -> Option<P>, line: string)
    ensures forall p :: Carries(line, p) ==> Usage(parse, line) == if p == "[DONE]" then None else parse(p)
    ensures (forall p :: !Carries(line, p)) ==> Usage(parse, line) == None
  {
    PayloadExactly(line);
    if Payload(line).Some? { assert Carries(line, Payload(line).value); }
  }

  /** The search over lines takes the last one that has usage. */
  lemma {:induction false} LastUsageIsLast<P>(parse: string -> Option<P>, lines: seq<string>)
    ensures LastUsage(parse, lines).None? <==> forall i :: 0 <= i < |lines| ==> Usage(parse, lines[i]).None?
    ensures LastUsage(parse, lines).Some? ==>
      exists i :: 0 <= i < |lines| && Usage(parse, lines[i]) == LastUsage(parse, lines)
                  && forall j :: i < j < |lines| ==> Usage(parse, lines[j]).None?
  {
    if lines != [] {
      var rest := lines[1..];
      LastUsageIsLast(parse, rest);
      if LastUsage(parse, rest).Some? {
        var i :| 0 <= i < |rest| && Usage(parse, rest[i]) == LastUsage(parse, rest)
                 && forall j :: i < j < |rest| ==> Usage(parse, rest[j]).None?;
        assert lines[i + 1] == rest[i];
        forall j | i + 1 < j < |lines| ensures Usage(parse, lines[j]).None? { assert lines[j] == rest[j - 1]; }
      } else {
        forall j | 0 < j < |lines| ensures Usage(parse, lines[j]).None? { assert lines[j] == rest[j - 1]; }
      }
    }
  }

  // ---------------------------------------------------------------- an ordinary completion stream

  /** A stream of events of one data line each, as completion endpoints send them. */
  function EventStream(texts: seq<string>): string {
    if texts == [] then "" else "data: " + texts[0] + "\n\n" + EventStream(texts[1..])
  }

  ghost predicate PlainTexts(texts: seq<string>) {
    forall i :: 0 <= i < |texts| ==> Trimmed(texts[i]) && PlainLine(texts[i])
  }

  predicate PlainLine(text: string) { forall i :: 0 <= i < |text| ==> !IsBreak(text[i]) }

  /** Such a stream is metered, however it is cut between characters: what is recorded is what the last of its
      texts that parses, other than "[DONE]", parses to. */
  lemma OrdinaryStreamIsMetered<P>(parse: string -> Option<P>, texts: seq<string>, chunks: seq<seq<Byte>>)
    requires PlainTexts(texts) && CutsAtStops(chunks) && Decode(Concat(chunks)) == EventStream(texts)
    ensures LastUsage(parse, Terminated(DecodeAll(chunks))) == LastParsed(Ignoring(parse, "[DONE]"), texts)
    ensures Unterminated(DecodeAll(chunks)) == ""
  {
    DecodeChunks(chunks);
    StreamUsage(parse, texts);
  }

  lemma {:induction false} StreamUsage<P>(parse: string -> Option<P>, texts: seq<string>)
    requires PlainTexts(texts)
    ensures LastUsage(parse, Terminated(EventStream(texts))) == LastParsed(Ignoring(parse, "[DONE]"), texts)
    ensures Unterminated(EventStream(texts)) == ""
  {
    if texts != [] {
      var p, rest := texts[0], texts[1..];
      assert forall i :: 0 <= i < |rest| ==> rest[i] == texts[i + 1];
      StreamUsage(parse, rest);
      OneEvent(parse, p, EventStream(rest));
      assert texts == [p] + rest;
      ParsedPrepend(Ignoring(parse, "[DONE]"), p, rest);
    }
  }

  lemma OneEvent<P>(parse: string -> Option<P>, p: string, rest: string)
    requires Trimmed(p) && PlainLine(p)
    ensures var s := "data: " + p + "\n\n" + rest;
      && LastUsage(parse, Terminated(s)) == OrElse(LastUsage(parse, Terminated(rest)), Ignoring(parse, "[DONE]")(p))
      && Unterminated(s) == Unterminated(rest)
  {
    var line, blank := "data: " + p + "\n", "\n" + rest;
    assert "data: " + p + "\n\n" + rest == line + blank;
    EventHead(p, line, blank);
    PeelUsage(parse, line, blank);
    LeadingNewline(parse, blank);
    assert blank[1..] == rest;
    UsualLine(parse, p, line);
  }

  lemma EventHead(p: string, line: string, blank: string)
    requires PlainLine(p) && line == "data: " + p + "\n"
    ensures FirstLine(line + blank) == line
  {
    var body := "data: " + p;
    forall i | 0 <= i < |body| ensures !IsBreak(body[i]) { if i >= 6 { assert body[i] == p[i - 6]; } }
    LineUpTo(body, '\n', blank);
    assert body + ['\n'] + blank == line + blank;
  }

  lemma UsualLine<P>(parse: string -> Option<P>, p: string, line: string)
    requires Trimmed(p) && line == "data: " + p + "\n"
    ensures Usage(parse, line) == if p == "[DONE]" then None else parse(p)
  {
    assert line == "" + "data:" + " " + p + "\n";
    CarriedPayload("", " ", p, "\n");
  }

  // ---------------------------------------------------------------- the program

  method ParseStreamUsage<P>(parse: string -> Option<P>, buffer: string, chunk: seq<Byte>)
    returns (rest: string, found: Option<P>)
    ensures rest == Unterminated(buffer + Decode(chunk))
    ensures found == LastUsage(parse, Terminated(buffer + Decode(chunk)))
  {
    var text := buffer + Decode(chunk);
    var lines := SplitLines(text);
    rest := "";
    if lines != [] && !Closed(lines[|lines| - 1]) {
      rest, lines := lines[|lines| - 1], lines[..|lines| - 1];
    }
    found := None;
    for i := 0 to |lines|
      invariant found == LastUsage(parse, lines[..i])
    {
      LastUsageSnoc(parse, lines[..i], lines[i], lines[..i + 1]);
      var payload := Usage(parse, lines[i]);
      if payload.Some? { found := payload; }
    }
    assert lines[..|lines|] == lines;
  }

  lemma LastUsageSnoc<P>(parse: string -> Option<P>, lines: seq<string>, line: string, all: seq<string>)
    requires all == lines + [line]
    ensures LastUsage(parse, all) == OrElse(Usage(parse, line), LastUsage(parse, lines))
  {
    LastUsageAppend(parse, lines, [line]);
    OneLine(parse, line);
  }

  /** The generator: every chunk is yielded unchanged, and what is recorded at the end depends only on the
      decoded text. If no cut splits a character and the text has no line break that an event stream does not know,
      it is the last usage among the terminated event-stream lines of the whole stream. */
  method ProxyStream<P>(parse: string -> Option<P>, chunks: seq<seq<Byte>>)
    returns (yielded: seq<seq<Byte>>, buffer: string, recorded: Option<P>)
    ensures yielded == chunks
    ensures recorded == LastUsage(parse, Terminated(DecodeAll(chunks)))
    ensures buffer == Unterminated(DecodeAll(chunks))
    ensures CutsAtStops(chunks) && PlainBreaks(Decode(Concat(chunks))) ==>
      recorded == LastUsage(parse, EventTerminated(Decode(Concat(chunks))))
  {
    buffer, recorded, yielded := "", None, [];
    for i := 0 to |chunks|
      invariant yielded == chunks[..i]
      invariant buffer == Unterminated(DecodeAll(chunks[..i]))
      invariant recorded == LastUsage(parse, Terminated(DecodeAll(chunks[..i])))
    {
      NextChunk(parse, chunks[..i], chunks[i], chunks[..i + 1]);
      var found;
      buffer, found := ParseStreamUsage(parse, buffer, chunks[i]);
      if found.Some? { recorded := found; }
      yielded := yielded + [chunks[i]];
    }
    assert chunks[..|chunks|] == chunks;
    MeteredIfPlain(parse, chunks);
  }

  lemma MeteredIfPlain<P>(parse: string -> Option<P>, chunks: seq<seq<Byte>>)
    ensures CutsAtStops(chunks) && PlainBreaks(Decode(Concat(chunks))) ==>
      LastUsage(parse, Terminated(DecodeAll(chunks))) == LastUsage(parse, EventTerminated(Decode(Concat(chunks))))
  {
    if CutsAtStops(chunks) && PlainBreaks(Decode(Concat(chunks))) { MeteringIsRight(parse, chunks); }
  }

  lemma NextChunk<P>(parse: string -> Option<P>, fed: seq<seq<Byte>>, chunk: seq<Byte>, all: seq<seq<Byte>>)
    requires all == fed + [chunk]
    ensures var before, carried := DecodeAll(fed), Unterminated(DecodeAll(fed)) + Decode(chunk);
      && Unterminated(DecodeAll(all)) == Unterminated(carried)
      && LastUsage(parse, Terminated(DecodeAll(all)))
           == OrElse(LastUsage(parse, Terminated(carried)), LastUsage(parse, Terminated(before)))
  {
    DecodeAllAppend(fed, chunk);
    Feed(parse, DecodeAll(fed), Decode(chunk));
  }

  // ---------------------------------------------------------------- feeding = batch

  lemma {:induction false} LastUsageAppend<P>(parse: string -> Option<P>, a: seq<string>, b: seq<string>)
    ensures LastUsage(parse, a + b) == OrElse(LastUsage(parse, b), LastUsage(parse, a))
  {
    if a == [] {
      assert a + b == b;
    } else {
      assert (a + b)[1..] == a[1..] + b;
      LastUsageAppend(parse, a[1..], b);
    }
  }

  /** Incremental parsing equals batch parsing: after text s, feeding d to the carried buffer gives the
      buffer of s + d, and the usage of s + d is that of the new lines or else that of s. A "\r\n" cut in
      two yields one more line, but a blank one. */
  lemma {:induction false} Feed<P>(parse: string -> Option<P>, s: string, d: string)
    ensures Unterminated(s + d) == Unterminated(Unterminated(s) + d)
    ensures LastUsage(parse, Terminated(s + d)) ==
            OrElse(LastUsage(parse, Terminated(Unterminated(s) + d)), LastUsage(parse, Terminated(s)))
    decreases |s|
  {
    if s == "" {
      assert s + d == d && Unterminated(s) + d == d;
    } else {
      var l := FirstLine(s);
      var r := s[|l|..];
      assert s == l + r;
      if r != "" {
        Feed(parse, r, d);
        FeedPeel(parse, l, r, d, s, r + d, Unterminated(r) + d);
      } else {
        FeedOneLine(parse, s, d, Unterminated(s) + d);
      }
    }
  }

  lemma FeedPeel<P>(parse: string -> Option<P>, l: string, r: string, d: string, s: string, tail: string,
                    carried: string)
    requires r != "" && l != "" && s == l + r && FirstLine(s) == l && tail == r + d && carried == Unterminated(r) + d
    requires Unterminated(tail) == Unterminated(carried)
    requires LastUsage(parse, Terminated(tail))
      == OrElse(LastUsage(parse, Terminated(carried)), LastUsage(parse, Terminated(r)))
    ensures Unterminated(s + d) == Unterminated(carried) && Unterminated(s) == Unterminated(r)
    ensures LastUsage(parse, Terminated(s + d))
      == OrElse(LastUsage(parse, Terminated(carried)), LastUsage(parse, Terminated(s)))
  {
    TailLine(l, r, d, s, tail);
    PeelFirst(parse, l, r, s);
    PeelFirst(parse, l, tail, s + d);
  }

  lemma TailLine(l: string, r: string, d: string, s: string, tail: string)
    requires r != "" && l != "" && s == l + r && FirstLine(s) == l && tail == r + d
    ensures s + d == l + tail && FirstLine(s + d) == l && tail != ""
  {
    FirstLineStable(s, d);
  }

  lemma PeelFirst<P>(parse: string -> Option<P>, l: string, r: string, s: string)
    requires s == l + r && r != "" && l != "" && FirstLine(s) == l
    ensures LastUsage(parse, Terminated(s)) == OrElse(LastUsage(parse, Terminated(r)), Usage(parse, l))
    ensures Unterminated(s) == Unterminated(r)
  {
    PeelUsage(parse, l, r);
  }

  lemma FeedOneLine<P>(parse: string -> Option<P>, s: string, d: string, carried: string)
    requires s != "" && FirstLine(s) == s && carried == Unterminated(s) + d
    ensures Unterminated(s + d) == Unterminated(carried)
    ensures LastUsage(parse, Terminated(s + d))
      == OrElse(LastUsage(parse, Terminated(carried)), LastUsage(parse, Terminated(s)))
  {
    if Closed(s) {
      ClosedLineAlone(parse, s);
      assert carried == d;
      FeedAfterClosedLine(parse, s, d);
    } else {
      OpenLineAlone(parse, s);
      assert carried == s + d;
    }
  }

  lemma OpenLineAlone<P>(parse: string -> Option<P>, line: string)
    requires line != "" && FirstLine(line) == line && !Closed(line)
    ensures Unterminated(line) == line && Terminated(line) == [] && LastUsage(parse, Terminated(line)) == None
  {
    assert SplitLines(line) == [line];
    assert [line][..0] == [];
  }

  /** A first line followed by more text keeps its end when text is appended. */
  lemma {:induction false} FirstLineStable(s: string, d: string)
    requires s != "" && |FirstLine(s)| < |s|
    ensures FirstLine(s + d) == FirstLine(s)
  {
    if !IsBreak(s[0]) && |s| > 1 {
      FirstLineStable(s[1..], d);
      assert (s + d)[1..] == s[1..] + d;
    }
  }

  /** Splitting off a first line that is followed by more text. */
  lemma Peel(l: string, r: string)
    requires r != "" && l != "" && FirstLine(l + r) == l
    ensures Terminated(l + r) == [l] + Terminated(r) && Unterminated(l + r) == Unterminated(r)
  {
    SplitPeel(l, r, l + r);
    LastOfMore(l, SplitLines(r), SplitLines(l + r));
  }

  lemma SplitPeel(l: string, r: string, s: string)
    requires s == l + r && r != "" && l != "" && FirstLine(s) == l
    ensures SplitLines(s) == [l] + SplitLines(r) && SplitLines(r) != []
  {
    assert s[|l|..] == r;
  }

  lemma LastOfMore(l: string, lines: seq<string>, more: seq<string>)
    requires lines != [] && more == [l] + lines
    ensures more[|more| - 1] == lines[|lines| - 1] && more[..|more| - 1] == [l] + lines[..|lines| - 1]
  {
  }

  lemma PeelUsage<P>(parse: string -> Option<P>, l: string, r: string)
    requires r != "" && l != "" && FirstLine(l + r) == l
    ensures LastUsage(parse, Terminated(l + r)) == OrElse(LastUsage(parse, Terminated(r)), Usage(parse, l))
    ensures Unterminated(l + r) == Unterminated(r)
  {
    Peel(l, r);
    OneLine(parse, l);
    LastUsageAppend(parse, [l], Terminated(r));
  }

  /** s is one line ending in \n or \r; d follows. */
  lemma FeedAfterClosedLine<P>(parse: string -> Option<P>, s: string, d: string)
    requires s != "" && FirstLine(s) == s && Closed(s)
    ensures Unterminated(s + d) == Unterminated(d)
    ensures LastUsage(parse, Terminated(s + d)) == OrElse(LastUsage(parse, Terminated(d)), Usage(parse, s))
  {
    if d == "" {
      assert s + d == s;
      ClosedLineAlone(parse, s);
    } else if s[|s| - 1] == '\r' && d[0] == '\n' {
      FeedInsideCrLf(parse, s, d);
    } else {
      ClosedLineStable(s, d);
      PeelUsage(parse, s, d);
    }
  }

  /** The cut falls between \r and \n. */
  lemma FeedInsideCrLf<P>(parse: string -> Option<P>, s: string, d: string)
    requires s != "" && FirstLine(s) == s && s[|s| - 1] == '\r' && d != "" && d[0] == '\n'
    ensures Unterminated(s + d) == Unterminated(d)
    ensures LastUsage(parse, Terminated(s + d)) == OrElse(LastUsage(parse, Terminated(d)), Usage(parse, s))
  {
    var joined, r := s + "\n", d[1..];
    SplitJoined(s, d, joined, r);
    LeadingNewline(parse, d);
    UsageOfJoined(parse, s, joined);
    ClosedLineThen(parse, joined, r);
  }

  lemma SplitJoined(s: string, d: string, joined: string, r: string)
    requires s != "" && FirstLine(s) == s && s[|s| - 1] == '\r' && d != "" && d[0] == '\n'
    requires joined == s + "\n" && r == d[1..]
    ensures s + d == joined + r && Closed(joined) && FirstLine(joined + r) == joined
  {
    CutNewline(s, d, joined, r);
    JoinedLine(s, d);
  }

  lemma CutNewline(s: string, d: string, joined: string, r: string)
    requires d != "" && d[0] == '\n' && joined == s + "\n" && r == d[1..]
    ensures s + d == joined + r && joined != "" && joined[|joined| - 1] == '\n'
  {
  }

  lemma ClosedLineThen<P>(parse: string -> Option<P>, l: string, r: string)
    requires l != "" && FirstLine(l + r) == l && Closed(l)
    ensures Unterminated(l + r) == Unterminated(r)
    ensures LastUsage(parse, Terminated(l + r)) == OrElse(LastUsage(parse, Terminated(r)), Usage(parse, l))
  {
    if r == "" {
      assert l + r == l;
      ClosedLineAlone(parse, l);
    } else {
      PeelUsage(parse, l, r);
    }
  }

  /** A leading newline is a blank line of its own. */
  lemma LeadingNewline<P>(parse: string -> Option<P>, d: string)
    requires d != "" && d[0] == '\n'
    ensures Unterminated(d) == Unterminated(d[1..])
    ensures LastUsage(parse, Terminated(d)) == LastUsage(parse, Terminated(d[1..]))
  {
    var r := d[1..];
    assert FirstLine(d) == "\n";
    UsageOfBlank(parse);
    if r == "" {
      assert d == "\n";
      ClosedLineAlone(parse, "\n");
    } else {
      assert d == "\n" + r;
      PeelUsage(parse, "\n", r);
    }
  }

  lemma ClosedLineAlone<P>(parse: string -> Option<P>, line: string)
    requires line != "" && FirstLine(line) == line && Closed(line)
    ensures Unterminated(line) == "" && LastUsage(parse, Terminated(line)) == Usage(parse, line)
  {
    assert SplitLines(line) == [line];
    OneLine(parse, line);
  }

  lemma OneLine<P>(parse: string -> Option<P>, line: string)
    ensures LastUsage(parse, [line]) == Usage(parse, line)
  {
    assert [line][1..] == [];
  }

  lemma LongLine(s: string)
    requires |s| > 1 && !IsBreak(s[0]) && FirstLine(s) == s
    ensures FirstLine(s[1..]) == s[1..]
  {
    assert s == [s[0]] + FirstLine(s[1..]);
  }

  lemma LongLineGrows(s: string, d: string, whole: string)
    requires |s| > 1 && !IsBreak(s[0]) && whole == s + d
    ensures whole[1..] == s[1..] + d && FirstLine(whole) == [s[0]] + FirstLine(s[1..] + d)
  {
    assert whole[1..] == s[1..] + d;
  }

  lemma {:induction false} ClosedLineStable(s: string, d: string)
    requires s != "" && FirstLine(s) == s && Closed(s) && d != ""
    requires !(s[|s| - 1] == '\r' && d[0] == '\n')
    ensures FirstLine(s + d) == s
  {
    if IsBreak(s[0]) {
      assert |s| == 1 || s == s[..2];
    } else {
      assert |s| > 1;
      LongLine(s);
      ClosedLineStable(s[1..], d);
      LongLineGrows(s, d, s + d);
    }
  }

  lemma {:induction false} JoinedLine(s: string, d: string)
    requires s != "" && FirstLine(s) == s && s[|s| - 1] == '\r' && d != "" && d[0] == '\n'
    ensures FirstLine(s + d) == s + "\n"
  {
    if IsBreak(s[0]) {
      assert |s| == 1;
      assert (s + d)[..2] == s + "\n";
    } else {
      assert |s| > 1;
      LongLine(s);
      JoinedLine(s[1..], d);
      LongLineGrows(s, d, s + d);
    }
  }

  lemma BlankLineEnd(s: string)
    ensures RStrip(s + "\n") == RStrip(s)
  {
    assert (s + "\n")[..|s|] == s;
  }

  lemma UsageOfJoined<P>(parse: string -> Option<P>, s: string, joined: string)
    requires joined == s + "\n"
    ensures Usage(parse, joined) == Usage(parse, s)
  {
    BlankLineEnd(s);
  }

  lemma UsageOfBlank<P>(parse: string -> Option<P>)
    ensures Usage(parse, "\n") == None
  {
    BlankLineEnd("");
    assert "" + "\n" == "\n";
  }

  // ---------------------------------------------------------------- splitlines is a line decomposition

  function Flatten(lines: seq<string>): string {
    if lines == [] then "" else lines[0] + Flatten(lines[1..])
  }

  ghost predicate BreakOnlyAtEnd(line: string) {
    forall i :: 0 <= i < |line| && IsBreak(line[i]) ==> i == |line| - 1 || (i == |line| - 2 && line[i..] == "\r\n")
  }

  lemma {:induction false} FirstLineShape(s: string)
    requires s != ""
    ensures BreakOnlyAtEnd(FirstLine(s))
    ensures |FirstLine(s)| < |s| ==> EndsInBreak(FirstLine(s))
  {
    var l := FirstLine(s);
    if IsBreak(s[0]) {
    } else if |s| > 1 {
      FirstLineShape(s[1..]);
      var m := FirstLine(s[1..]);
      forall i | 0 <= i < |l| && IsBreak(l[i]) ensures i == |l| - 1 || (i == |l| - 2 && l[i..] == "\r\n") {
        assert l[i] == m[i - 1];
        assert l[i..] == m[i - 1..];
      }
    }
  }

  /** The lines concatenate to the text, breaks occur only at line ends, and every line but the last
      ends in one. */
  lemma {:induction false} LinesDecompose(s: string)
    ensures Flatten(SplitLines(s)) == s
    ensures forall i :: 0 <= i < |SplitLines(s)| ==> BreakOnlyAtEnd(SplitLines(s)[i])
    ensures forall i :: 0 <= i < |SplitLines(s)| - 1 ==> EndsInBreak(SplitLines(s)[i])
    decreases |s|
  {
    if s != "" {
      var l := FirstLine(s);
      var r := s[|l|..];
      FirstLineShape(s);
      LinesDecompose(r);
      assert SplitLines(s) == [l] + SplitLines(r) && SplitLines(s)[1..] == SplitLines(r);
      assert r == "" ==> SplitLines(r) == [];
    }
  }

  ghost predicate EndsInBreak(line: string) {
    line != "" && IsBreak(line[|line| - 1])
  }

  lemma FlattenCons(l: string, lines: seq<string>)
    ensures Flatten([l] + lines) == l + Flatten(lines)
  {
    assert ([l] + lines)[1..] == lines;
  }

  /** The carried buffer is the suffix of the text after the searched lines. */
  lemma {:induction false} BufferIsSuffix(s: string)
    ensures Flatten(Terminated(s)) + Unterminated(s) == s
    decreases |s|
  {
    if s != "" {
      var l := FirstLine(s);
      var r := s[|l|..];
      assert s == l + r;
      if r != "" {
        BufferIsSuffix(r);
        SuffixPeel(l, r, s);
      } else {
        FlattenCons(l, []);
        assert SplitLines(s) == [l] && l == s && [l][..0] == [];
      }
    }
  }

  lemma SuffixPeel(l: string, r: string, s: string)
    requires s == l + r && l != "" && r != "" && FirstLine(s) == l && Flatten(Terminated(r)) + Unterminated(r) == r
    ensures Flatten(Terminated(s)) + Unterminated(s) == s
  {
    var lines, left := Terminated(r), Unterminated(r);
    assert Terminated(s) == [l] + lines && Unterminated(s) == left by { Peel(l, r); }
    FlattenCons(l, lines);
    ConcatAssoc(l, Flatten(lines), left);
  }

  // ---------------------------------------------------------------- chunk boundaries

  /** Metering is independent of chunking: any two cuttings of the same bytes that split no character (in
      particular, any two cuttings of an ASCII stream) carry the same buffer and record the same payload, that of
      the whole stream. */
  lemma ChunkingIrrelevant<P>(parse: string -> Option<P>, one: seq<seq<Byte>>, other: seq<seq<Byte>>)
    requires Concat(one) == Concat(other) && CutsAtStops(one) && CutsAtStops(other)
    ensures LastUsage(parse, Terminated(DecodeAll(one))) == LastUsage(parse, Terminated(DecodeAll(other)))
    ensures LastUsage(parse, Terminated(DecodeAll(one))) == LastUsage(parse, Terminated(Decode(Concat(one))))
    ensures Unterminated(DecodeAll(one)) == Unterminated(DecodeAll(other)) == Unterminated(Decode(Concat(one)))
  {
    DecodeChunks(one);
    DecodeChunks(other);
  }

  const AS_IS := (raw: string) => Some(raw)

  const SPLIT_CHARACTER: seq<seq<Byte>> := [[100, 97, 116, 97, 58, 0x78, 0xC3], [0xA9, 10]]

  /** Outside that condition the recorded payload itself depends on the cut: of the bytes of "data:x\u00e9\n",
      cut inside the accented letter, the payload is recorded without it. */
  lemma SplitCharacterIsLost()
    ensures !CutsAtStops(SPLIT_CHARACTER)
    ensures LastUsage(AS_IS, Terminated(Decode(Concat(SPLIT_CHARACTER)))) == Some(['x', 0xE9 as char])
    ensures LastUsage(AS_IS, Terminated(DecodeAll(SPLIT_CHARACTER))) == Some("x")
  {
    SplitDecodes();
    DecodeChunks(SPLIT_CHARACTER);
    var accented := ['x', 0xE9 as char];
    forall i | 0 <= i < |accented|
      ensures Inner(accented[i])
    {
      if i == 0 { assert Inner('x'); } else { assert Inner(0xE9 as char); }
    }
    DataLine(accented);
    DataLine("x");
  }

  lemma SplitDecodes()
    ensures Decode(Concat(SPLIT_CHARACTER)) == "data:" + ['x', 0xE9 as char] + "\n"
    ensures DecodeAll(SPLIT_CHARACTER) == "data:" + "x" + "\n"
  {
    var head, whole, cut: seq<Byte>, rest: seq<Byte> := "data:x", [0xC3, 0xA9, 10], [0xC3], [0xA9, 10];
    SplitPieces(head, whole, cut, rest);
    TailsDecode(whole);
    DecodeAscii(head, whole);
    DecodeAscii(head, cut);
    TwoChunks(Bytes(head) + cut, rest, head + "", "\n");
    SplitTexts(head);
  }

  lemma SplitPieces(head: string, whole: seq<Byte>, cut: seq<Byte>, rest: seq<Byte>)
    requires head == "data:x" && whole == [0xC3, 0xA9, 10] && cut == [0xC3] && rest == [0xA9, 10]
    ensures SPLIT_CHARACTER == [Bytes(head) + cut, rest] && Bytes(head) + cut + rest == Bytes(head) + whole
  {
    assert SPLIT_CHARACTER[0] == Bytes(head) + cut && SPLIT_CHARACTER[1] == rest;
  }

  lemma SplitTexts(head: string)
    requires head == "data:x"
    ensures head + [0xE9 as char, '\n'] == "data:" + ['x', 0xE9 as char] + "\n"
    ensures head + "" + "\n" == "data:" + "x" + "\n"
  {
  }

  lemma TwoChunks(first: seq<Byte>, second: seq<Byte>, one: string, two: string)
    requires Decode(first) == one && Decode(second) == two
    ensures Concat([first, second]) == first + second && DecodeAll([first, second]) == one + two
  {
    var last := [second];
    assert [first, second][1..] == last && last[1..] == [];
    assert Concat(last) == second + [] && DecodeAll(last) == two + "";
  }

  lemma TailsDecode(accented: seq<Byte>)
    requires accented == [0xC3, 0xA9, 10]
    ensures Decode(accented) == [0xE9 as char, '\n'] && Decode([0xC3]) == "" && Decode([0xA9, 10]) == "\n"
  {
    var newline: seq<Byte> := [10];
    assert newline[1..] == [] && Decode(newline) == "\n" by { TakeCharacter(newline, 1, []); }
    assert accented[2..] == newline;
    TakeCharacter(accented, 2, newline);
    DropMalformed([0xC3], []);
    DropMalformed([0xA9, 10], newline);
  }

  predicate Inner(c: char) { !IsBreak(c) && !IsSpace(c) }

  /** One terminated data line with a payload of plain characters. */
  lemma DataLine(payload: string)
    requires payload != "" && payload != "[DONE]" && forall i :: 0 <= i < |payload| ==> Inner(payload[i])
    ensures var s := "data:" + payload + "\n";
      SplitLines(s) == [s] && Terminated(s) == [s] && LastUsage(AS_IS, Terminated(s)) == Some(payload)
  {
    var s := "data:" + payload + "\n";
    var body := "data:" + payload;
    forall i | 0 <= i < |body| ensures Inner(body[i]) { if i >= 5 { assert body[i] == payload[i - 5]; } }
    OneBreak(body);
    assert s == body + "\n";
    assert s[|s|..] == "";
    Strips(body);
    Strips(payload);
    assert body[5..] == payload;
    assert [s][1..] == [];
  }

  lemma {:induction false} OneBreak(body: string)
    requires forall i :: 0 <= i < |body| ==> Inner(body[i])
    ensures FirstLine(body + "\n") == body + "\n"
  {
    if body != "" {
      OneBreak(body[1..]);
      assert (body + "\n")[1..] == body[1..] + "\n";
    }
  }

  lemma Strips(body: string)
    requires body != "" && forall i :: 0 <= i < |body| ==> Inner(body[i])
    ensures Strip(body + "\n") == body && Strip(body) == body
  {
    assert (body + "\n")[..|body|] == body;
    assert RStrip(body + "\n") == RStrip(body);
  }

  // ---------------------------------------------------------------- the lines of an event stream

  /** The lines of an event stream (section 9.2.5 of the HTML Standard): \r\n, \n and \r end a line,
      nothing else does. */
  function EventLine(s: string): (line: string)
    requires s != ""
    ensures 1 <= |line| <= |s| && line <= s
  {
    if s[0] == '\n' then s[..1]
    else if s[0] == '\r' then (if |s| > 1 && s[1] == '\n' then s[..2] else s[..1])
    else if |s| == 1 then s
    else [s[0]] + EventLine(s[1..])
  }

  function EventLines(s: string): seq<string>
    decreases |s|
  {
    if s == "" then [] else [EventLine(s)] + EventLines(s[|EventLine(s)|..])
  }

  /** The terminated lines of an event stream. */
  function EventTerminated(s: string): seq<string> {
    var lines := EventLines(s);
    if lines == [] || Closed(lines[|lines| - 1]) then lines else lines[..|lines| - 1]
  }

  /** A character at which the program splits lines and an event stream does not. */
  predicate StrayBreak(c: char) { IsBreak(c) && c != '\n' && c != '\r' }

  /** No such character, except perhaps the last. */
  predicate PlainBreaks(s: string) { forall i :: 0 <= i < |s| - 1 ==> !StrayBreak(s[i]) }

  /** The program searches exactly the terminated lines of the event stream if and only if the text has no
      other line break before its last character. */
  lemma {:induction false} LinesAreEventLines(s: string)
    ensures Terminated(s) == EventTerminated(s) <==> PlainBreaks(s)
    ensures PlainBreaks(s) ==> SplitLines(s) == EventLines(s)
  {
    if PlainBreaks(s) {
      SameLines(s);
    } else {
      StrayLine(s);
      EventTerminatedClosed(s);
    }
  }

  lemma {:induction false} SameLine(s: string)
    requires s != "" && PlainBreaks(s)
    ensures FirstLine(s) == EventLine(s)
  {
    if !IsBreak(s[0]) && |s| > 1 {
      forall i | 0 <= i < |s[1..]| - 1 ensures !StrayBreak(s[1..][i]) { assert !StrayBreak(s[i + 1]); }
      SameLine(s[1..]);
    } else if |s| > 1 {
      assert !StrayBreak(s[0]);
    }
  }

  lemma {:induction false} SameLines(s: string)
    requires PlainBreaks(s)
    ensures SplitLines(s) == EventLines(s)
    decreases |s|
  {
    if s != "" {
      SameLine(s);
      var n := |FirstLine(s)|;
      forall i | 0 <= i < |s[n..]| - 1 ensures !StrayBreak(s[n..][i]) { assert !StrayBreak(s[i + n]); }
      SameLines(s[n..]);
    }
  }

  lemma {:induction false} EventLineEnds(s: string)
    requires s != "" && |EventLine(s)| < |s|
    ensures Closed(EventLine(s))
  {
    if s[0] != '\n' && s[0] != '\r' { EventLineEnds(s[1..]); }
  }

  lemma {:induction false} EventLinesClosed(s: string)
    ensures forall i :: 0 <= i < |EventLines(s)| - 1 ==> Closed(EventLines(s)[i])
    decreases |s|
  {
    if s != "" {
      var l := EventLine(s);
      var r := s[|l|..];
      EventLinesClosed(r);
      if r != "" { EventLineEnds(s); }
      ClosedCons(l, EventLines(r), EventLines(s));
    }
  }

  lemma ClosedCons(l: string, lines: seq<string>, all: seq<string>)
    requires all == [l] + lines && (lines != [] ==> Closed(l))
    requires forall i :: 0 <= i < |lines| - 1 ==> Closed(lines[i])
    ensures forall i :: 0 <= i < |all| - 1 ==> Closed(all[i])
  {
    forall i | 0 <= i < |all| - 1 ensures Closed(all[i]) { if i > 0 { assert all[i] == lines[i - 1]; } }
  }

  lemma EventTerminatedClosed(s: string)
    ensures forall i :: 0 <= i < |EventTerminated(s)| ==> Closed(EventTerminated(s)[i])
  {
    EventLinesClosed(s);
  }

  ghost predicate EndsAstray(line: string) { line != "" && StrayBreak(line[|line| - 1]) }

  /** A stray break before the end of the text ends a line the program searches. */
  lemma {:induction false} StrayLine(s: string)
    requires !PlainBreaks(s)
    ensures exists i :: 0 <= i < |SplitLines(s)| - 1 && EndsAstray(SplitLines(s)[i])
    ensures exists i :: 0 <= i < |Terminated(s)| && EndsAstray(Terminated(s)[i])
    decreases |s|
  {
    var i := StrayIndex(s);
    assert Terminated(s)[i] == SplitLines(s)[i];
  }

  lemma {:induction false} StrayIndex(s: string) returns (i: nat)
    requires !PlainBreaks(s)
    ensures i < |SplitLines(s)| - 1 && EndsAstray(SplitLines(s)[i])
    decreases |s|
  {
    var l := FirstLine(s);
    var r := s[|l|..];
    FirstLineShape(s);
    var at :| 0 <= at < |s| - 1 && StrayBreak(s[at]);
    if at < |l| {
      StrayInFirst(s, l, at);
      i := 0;
    } else {
      assert r[at - |l|] == s[at];
      var j := StrayIndex(r);
      i := j + 1;
    }
  }

  lemma StrayInFirst(s: string, l: string, at: nat)
    requires s != "" && l == FirstLine(s) && BreakOnlyAtEnd(l) && at < |s| - 1 && at < |l| && StrayBreak(s[at])
    ensures EndsAstray(l) && |l| < |s|
  {
    assert l[at] == s[at] && l[at..][0] == l[at];
  }

  /** When the metering is right: for a stream that is cut between characters and whose text has no line break
      but \n and \r before its last character, what the generator records is the last usage-bearing line among the
      terminated event-stream lines of the whole stream. */
  lemma MeteringIsRight<P>(parse: string -> Option<P>, chunks: seq<seq<Byte>>)
    requires CutsAtStops(chunks) && PlainBreaks(Decode(Concat(chunks)))
    ensures LastUsage(parse, Terminated(DecodeAll(chunks))) == LastUsage(parse, EventTerminated(Decode(Concat(chunks))))
  {
    DecodeChunks(chunks);
    LinesAreEventLines(Decode(Concat(chunks)));
  }

  // ---------------------------------------------------------------- exactly when the metering is right

  /** The texts that a list of lines hands to the parser. */
  function Payloads(lines: seq<string>): seq<string> {
    if lines == [] then []
    else
      var rest := Payloads(lines[1..]);
      if Payload(lines[0]).None? then rest else [Payload(lines[0]).value] + rest
  }

  function LastParsed<P>(parse: string -> Option<P>, texts: seq<string>): Option<P> {
    if texts == [] then None else OrElse(parse(texts[|texts| - 1]), LastParsed(parse, texts[..|texts| - 1]))
  }

  /** The texts without those equal to t. */
  function Except(texts: seq<string>, t: string): (rest: seq<string>)
    ensures |rest| <= |texts|
  {
    if texts == [] then []
    else Except(texts[..|texts| - 1], t) + if texts[|texts| - 1] == t then [] else [texts[|texts| - 1]]
  }

  /** Each text once, at its last occurrence. */
  function Latest(texts: seq<string>): seq<string>
    decreases |texts|
  {
    if texts == [] then []
    else Latest(Except(texts[..|texts| - 1], texts[|texts| - 1])) + [texts[|texts| - 1]]
  }

  lemma {:induction false} ParsedPrepend<P>(parse: string -> Option<P>, t: string, texts: seq<string>)
    ensures LastParsed(parse, [t] + texts) == OrElse(LastParsed(parse, texts), parse(t))
    decreases |texts|
  {
    var all := [t] + texts;
    if texts == [] {
      assert all[..0] == [];
    } else {
      assert all[..|all| - 1] == [t] + texts[..|texts| - 1];
      ParsedPrepend(parse, t, texts[..|texts| - 1]);
    }
  }

  lemma {:induction false} UsageIsLastParsed<P>(parse: string -> Option<P>, lines: seq<string>)
    ensures LastUsage(parse, lines) == LastParsed(parse, Payloads(lines))
  {
    if lines != [] {
      UsageIsLastParsed(parse, lines[1..]);
      if Payload(lines[0]).Some? { ParsedPrepend(parse, Payload(lines[0]).value, Payloads(lines[1..])); }
    }
  }

  function Ignoring<P>(parse: string -> Option<P>, t: string): string -> Option<P> {
    (raw: string) => if raw == t then None else parse(raw)
  }

  /** Leaving out a text is refusing to parse it. */
  lemma {:induction false} ParsedExcept<P>(parse: string -> Option<P>, texts: seq<string>, t: string)
    ensures LastParsed(parse, Except(texts, t)) == LastParsed(Ignoring(parse, t), texts)
  {
    if texts != [] {
      var init, last := texts[..|texts| - 1], texts[|texts| - 1];
      ParsedExcept(parse, init, t);
      if last == t {
        assert Except(texts, t) == Except(init, t);
      } else {
        assert Except(texts, t)[..|Except(texts, t)| - 1] == Except(init, t);
      }
    }
  }

  /** If the last text does not parse, an earlier one is looked for, and not that one again. */
  lemma ParsedLatest<P>(parse: string -> Option<P>, texts: seq<string>)
    requires texts != []
    ensures var last := texts[|texts| - 1];
      LastParsed(parse, texts) == OrElse(parse(last), LastParsed(parse, Except(texts[..|texts| - 1], last)))
  {
    var init, last := texts[..|texts| - 1], texts[|texts| - 1];
    if parse(last).None? {
      ParsedExcept(parse, init, last);
      SameParsed(parse, Ignoring(parse, last), init);
    }
  }

  lemma {:induction false} SameParsed<P>(parse: string -> Option<P>, other: string -> Option<P>, texts: seq<string>)
    requires forall raw :: parse(raw) == other(raw)
    ensures LastParsed(parse, texts) == LastParsed(other, texts)
  {
    if texts != [] { SameParsed(parse, other, texts[..|texts| - 1]); }
  }

  /** What is recorded depends only on the latest texts. */
  lemma {:induction false} LatestDecides<P>(parse: string -> Option<P>, a: seq<string>, b: seq<string>)
    requires Latest(a) == Latest(b)
    ensures LastParsed(parse, a) == LastParsed(parse, b)
    decreases |a|
  {
    if a != [] && b != [] {
      var x, y := Except(a[..|a| - 1], a[|a| - 1]), Except(b[..|b| - 1], b[|b| - 1]);
      LastOfBoth(Latest(x), a[|a| - 1], Latest(y), b[|b| - 1]);
      LatestDecides(parse, x, y);
      ParsedLatest(parse, a);
      ParsedLatest(parse, b);
    }
  }

  lemma LastOfBoth(x: seq<string>, s: string, y: seq<string>, t: string)
    requires x + [s] == y + [t]
    ensures x == y && s == t
  {
    assert (x + [s])[|x + [s]| - 1] == s && (x + [s])[..|x + [s]| - 1] == x;
    assert (y + [t])[|y + [t]| - 1] == t && (y + [t])[..|y + [t]| - 1] == y;
  }

  ghost predicate ParsedAlike(a: seq<string>, b: seq<string>) {
    forall parse: string -> Option<string> :: LastParsed(parse, a) == LastParsed(parse, b)
  }

  /** And nothing less decides it: two lists that every parser reads alike have the same latest texts. */
  lemma {:induction false} AlikeHaveSameLatest(a: seq<string>, b: seq<string>)
    requires ParsedAlike(a, b)
    ensures Latest(a) == Latest(b)
    decreases |a|
  {
    assert LastParsed(AS_IS, a) == LastParsed(AS_IS, b);
    if a != [] && b != [] {
      var last := a[|a| - 1];
      assert b[|b| - 1] == last;
      var x, y := Except(a[..|a| - 1], last), Except(b[..|b| - 1], last);
      AlikeExcept(a, b, last, x, y);
      AlikeHaveSameLatest(x, y);
    }
  }

  lemma AlikeExcept(a: seq<string>, b: seq<string>, last: string, x: seq<string>, y: seq<string>)
    requires ParsedAlike(a, b) && a != [] && b != [] && a[|a| - 1] == b[|b| - 1] == last
    requires x == Except(a[..|a| - 1], last) && y == Except(b[..|b| - 1], last)
    ensures ParsedAlike(x, y)
  {
    forall parse: string -> Option<string> ensures LastParsed(parse, x) == LastParsed(parse, y) {
      assert LastParsed(Ignoring(parse, last), a) == LastParsed(Ignoring(parse, last), b);
      ParsedExcept(parse, a, last);
      ParsedExcept(parse, b, last);
      assert Except(a, last) == x && Except(b, last) == y;
    }
  }

  /** Whatever texts carry usage, two lists of lines have the same last usage. */
  ghost predicate MeteredAlike(one: seq<string>, other: seq<string>) {
    forall parse: string -> Option<string> :: LastUsage(parse, one) == LastUsage(parse, other)
  }

  /** The exact condition, for every stream however it is cut: what the generator records is the last usage of the
      event-stream lines, whatever texts carry usage, if and only if the program's lines and those of the event
      stream hand the parser the same texts in the same order of last occurrence. */
  lemma MeteringExactly(chunks: seq<seq<Byte>>)
    ensures var program, stream := Terminated(DecodeAll(chunks)), EventTerminated(Decode(Concat(chunks)));
      MeteredAlike(program, stream) <==> Latest(Payloads(program)) == Latest(Payloads(stream))
  {
    MeteredAlikeExactly(Terminated(DecodeAll(chunks)), EventTerminated(Decode(Concat(chunks))));
  }

  lemma MeteredAlikeExactly(one: seq<string>, other: seq<string>)
    ensures MeteredAlike(one, other) <==> Latest(Payloads(one)) == Latest(Payloads(other))
  {
    var a, b := Payloads(one), Payloads(other);
    if Latest(a) == Latest(b) {
      forall parse: string -> Option<string> ensures LastUsage(parse, one) == LastUsage(parse, other) {
        UsageIsLastParsed(parse, one);
        UsageIsLastParsed(parse, other);
        LatestDecides(parse, a, b);
      }
    }
    if MeteredAlike(one, other) {
      forall parse: string -> Option<string> ensures LastParsed(parse, a) == LastParsed(parse, b) {
        UsageIsLastParsed(parse, one);
        UsageIsLastParsed(parse, other);
      }
      AlikeHaveSameLatest(a, b);
    }
  }

  const LINE_SEPARATOR := 0x2028 as char

  /** Where it is wrong: U+2028 may stand unescaped inside a JSON string. The program takes it for the end of
      the line, so it hands the parser a piece and records nothing, though the event stream has one line with usage. */
  lemma SeparatorHidesUsage()
    ensures var payload := ['a', LINE_SEPARATOR, 'b']; var s := "data:" + payload + "\n";
      var parse := (raw: string) => if raw == payload then Some(raw) else None;
      && EventTerminated(s) == [s] && LastUsage(parse, EventTerminated(s)) == Some(payload)
      && LastUsage(parse, Terminated(s)) == None
  {
    var payload := ['a', LINE_SEPARATOR, 'b'];
    var parse := (raw: string) => if raw == payload then Some(raw) else None;
    var s := "data:" + payload + "\n";
    OneEventLine(parse, payload, s);
    var first, second := "data:" + "a" + [LINE_SEPARATOR], "b\n";
    SeparatorSplits(s, first, second);
    TwoLines(parse, first, second);
    DataLineUsage(parse, "a", LINE_SEPARATOR);
    OtherLineUsage(parse, "b", '\n');
  }

  lemma TwoLines<P>(parse: string -> Option<P>, first: string, second: string)
    ensures LastUsage(parse, [first, second]) == OrElse(Usage(parse, second), Usage(parse, first))
  {
    assert [first, second] == [first] + [second];
    LastUsageAppend(parse, [first], [second]);
    OneLine(parse, first);
    OneLine(parse, second);
  }

  /** The event stream has one line, and its payload. */
  lemma OneEventLine<P>(parse: string -> Option<P>, payload: string, s: string)
    requires payload != "" && !IsSpace(payload[0]) && !IsSpace(payload[|payload| - 1]) && payload != "[DONE]"
    requires '\n' !in payload && '\r' !in payload && s == "data:" + payload + "\n"
    ensures EventTerminated(s) == [s] && LastUsage(parse, EventTerminated(s)) == parse(payload)
  {
    EventLineOf("data:" + payload);
    assert s[|s|..] == "" && EventLines(s) == [s];
    OneLine(parse, s);
    DataLineUsage(parse, payload, '\n');
  }

  lemma DataLineUsage<P>(parse: string -> Option<P>, payload: string, c: char)
    requires payload != "" && !IsSpace(payload[0]) && !IsSpace(payload[|payload| - 1]) && payload != "[DONE]"
    requires IsSpace(c)
    ensures Usage(parse, "data:" + payload + [c]) == parse(payload)
  {
    StripsTo("data:" + payload, c);
    PayloadOf(payload);
  }

  lemma OtherLineUsage<P>(parse: string -> Option<P>, body: string, c: char)
    requires body != "" && !IsSpace(body[0]) && !IsSpace(body[|body| - 1]) && !("data:" <= body) && IsSpace(c)
    ensures Usage(parse, body + [c]) == None
  {
    StripsTo(body, c);
  }

  lemma SeparatorSplits(s: string, first: string, second: string)
    requires s == "data:" + ['a', LINE_SEPARATOR, 'b'] + "\n"
    requires first == "data:" + "a" + [LINE_SEPARATOR] && second == "b\n"
    ensures SplitLines(s) == [first, second] && Terminated(s) == [first, second]
  {
    var body := "data:" + "a";
    assert s == body + [LINE_SEPARATOR] + second;
    LineUpTo(body, LINE_SEPARATOR, second);
    assert s[|first|..] == second;
    assert second == "b" + ['\n'] + "";
    LineUpTo("b", '\n', "");
    assert FirstLine(second) == second && second[|second|..] == "";
    assert SplitLines(second) == [second];
  }

  lemma {:induction false} EventLineOf(body: string)
    requires '\n' !in body && '\r' !in body
    ensures EventLine(body + "\n") == body + "\n"
  {
    if body != "" {
      EventLineOf(body[1..]);
      assert (body + "\n")[1..] == body[1..] + "\n";
    }
  }

  lemma {:induction false} LineUpTo(body: string, c: char, rest: string)
    requires IsBreak(c) && c != '\r' && forall i :: 0 <= i < |body| ==> !IsBreak(body[i])
    ensures FirstLine(body + [c] + rest) == body + [c]
  {
    var s := body + [c] + rest;
    if body != "" {
      LineUpTo(body[1..], c, rest);
      assert s[1..] == body[1..] + [c] + rest;
    }
  }

  /** Stripping a line that begins and ends, but for its break, with plain characters. */
  lemma StripsTo(body: string, c: char)
    requires body != "" && !IsSpace(body[0]) && !IsSpace(body[|body| - 1]) && IsSpace(c)
    ensures Strip(body + [c]) == body && Strip(body) == body
  {
    assert (body + [c])[..|body|] == body;
    assert RStrip(body + [c]) == RStrip(body);
  }

  lemma PayloadOf(payload: string)
    requires payload != "" && !IsSpace(payload[0]) && !IsSpace(payload[|payload| - 1])
    ensures "data:" <= "data:" + payload && ("data:" + payload)[5..] == payload && Strip(payload) == payload
  {
  }
}
