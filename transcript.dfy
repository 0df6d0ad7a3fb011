/** `format_transcription`: one pass over the recogniser's chunks that builds
    the timestamped transcript (one line per chunk) and the flat transcript
    (the trimmed chunk texts, skipping a text equal to the last one kept). */
module Transcript {
  import opened Wrappers
  import opened PyStr
  import opened FixedPoint
  import opened WordDedup

  /** One recognised segment; `timestamp` holds start and end in centiseconds. */
  datatype Chunk = Chunk(text: string, timestamp: Option<(int, int)>)

  /** The recogniser's output: `None` when it carries no `chunks` entry. */
  type Transcription = Option<seq<Chunk>>

  /** `transcription.get('chunks', [])`. */
  function ChunksOf(t: Transcription): (cs: seq<Chunk>)
    ensures cs == [] <==> t == None || t == Some([])
  {
    match t
    case None => []
    case Some(cs) => cs
  }

  /** The bracketed label of a chunk's line: its time range, or a marker. */
  function Tag(c: Chunk): (tag: string)
    ensures |tag| >= 2 && tag[0] == '[' && tag[|tag| - 1] == ']'
    ensures forall i :: 0 <= i < |tag| ==> !IsSpace(tag[i]) || tag[i] == ' '
  {
    match c.timestamp
    case Some((start, end)) =>
      var s, e := Fmt2(start), Fmt2(end);
      assert forall i :: 0 <= i < |s| ==> !IsSpace(s[i]);
      "[" + s + " - " + e + "]"
    case None => "[No Timestamp]"
  }

  /** The line a chunk adds to the timestamped transcript. */
  function Line(c: Chunk): (l: string)
    ensures |l| >= 4 && l[0] == '[' && l[|l| - 1] == '\n'
  {
    match c.timestamp
    case Some((start, end)) => "[" + Fmt2(start) + " - " + Fmt2(end) + "] " + Strip(c.text) + "\n"
    case None => "[No Timestamp] " + Strip(c.text) + "\n"
  }

  /** The strings `f` renders for `xs`, one after the other. */
  function ConcatMap<T>(f: T -> string, xs: seq<T>): string {
    if xs == [] then "" else ConcatMap(f, xs[..|xs| - 1]) + f(xs[|xs| - 1])
  }

  lemma {:induction false} ConcatMapAppend<T>(f: T -> string, a: seq<T>, b: seq<T>)
    ensures ConcatMap(f, a + b) == ConcatMap(f, a) + ConcatMap(f, b)
  {
    if b == [] {
      assert a + b == a;
    } else {
      var ab, b' := a + b, b[..|b| - 1];
      assert ab[..|ab| - 1] == a + b' && ab[|ab| - 1] == b[|b| - 1];
      ConcatMapAppend(f, a, b');
    }
  }

  /** `formatted_text` after the loop has seen `cs`, before the final strip. */
  function FormattedRaw(cs: seq<Chunk>): string {
    ConcatMap(Line, cs)
  }

  /** One more chunk adds its line at the end. */
  lemma FormattedRawSnoc(cs: seq<Chunk>)
    requires cs != []
    ensures FormattedRaw(cs) == FormattedRaw(cs[..|cs| - 1]) + Line(cs[|cs| - 1])
  {
  }

  /** The trimmed texts of the chunks, in order. */
  function Trimmed(cs: seq<Chunk>): (ts: seq<string>)
    ensures |ts| == |cs|
  {
    if cs == [] then [] else Trimmed(cs[..|cs| - 1]) + [Strip(cs[|cs| - 1].text)]
  }

  function LastOr(s: seq<string>, default: string): string {
    if s == [] then default else s[|s| - 1]
  }

  /** The trimmed texts the loop appends to `full_text`: a text is appended when
      it differs from `previous_text`, which is the last appended text, or `""`
      before anything has been appended. */
  function Accepted(cs: seq<Chunk>): (acc: seq<string>)
    ensures |acc| <= |cs|
  {
    if cs == [] then []
    else
      var acc := Accepted(cs[..|cs| - 1]);
      var t := Strip(cs[|cs| - 1].text);
      if t != LastOr(acc, "") then acc + [t] else acc
  }

  /** `full_text` before the final strip: every appended text followed by a space. */
  function FlatRaw(acc: seq<string>): string {
    if acc == [] then "" else FlatRaw(acc[..|acc| - 1]) + acc[|acc| - 1] + " "
  }

  /** The first value `format_transcription` returns. */
  function FormattedText(cs: seq<Chunk>): (s: string)
    ensures IsStripped(s)
  {
    Strip(FormattedRaw(cs))
  }

  /** The second value `format_transcription` returns. */
  function FlatText(cs: seq<Chunk>): (s: string)
    ensures IsStripped(s)
  {
    Strip(FlatRaw(Accepted(cs)))
  }

  /** What one more chunk does to the two accumulators and to `previous_text`. */
  lemma PrefixStep(cs: seq<Chunk>, i: nat)
    requires i < |cs|
    ensures FormattedRaw(cs[..i + 1]) == FormattedRaw(cs[..i]) + Line(cs[i])
    ensures var acc, t := Accepted(cs[..i]), Strip(cs[i].text);
      Accepted(cs[..i + 1]) == if t != LastOr(acc, "") then acc + [t] else acc
  {
    assert cs[..i + 1][..i] == cs[..i];
  }

  lemma FlatRawSnoc(acc: seq<string>, t: string)
    ensures FlatRaw(acc + [t]) == FlatRaw(acc) + t + " "
  {
    assert (acc + [t])[..|acc|] == acc;
  }

  /** The source loop, with `+=` on the two outputs and `previous_text` as state. */
  method FormatTranscription(transcription: Transcription)
    returns (formattedText: string, fullText: string)
    ensures formattedText == FormattedText(ChunksOf(transcription))
    ensures fullText == FlatText(ChunksOf(transcription))
  {
    formattedText, fullText := "", "";
    var previousText := "";
    var chunks := ChunksOf(transcription);
    for i := 0 to |chunks|
      invariant formattedText == FormattedRaw(chunks[..i])
      invariant fullText == FlatRaw(Accepted(chunks[..i]))
      invariant previousText == LastOr(Accepted(chunks[..i]), "")
    {
      PrefixStep(chunks, i);
      var text := chunks[i].text;
      var line;
      match chunks[i].timestamp {
        case Some((startTime, endTime)) =>
          line := "[" + Fmt2(startTime) + " - " + Fmt2(endTime) + "] " + Strip(text) + "\n";
        case None =>
          line := "[No Timestamp] " + Strip(text) + "\n";
      }
      formattedText := formattedText + line;
      if Strip(text) != previousText {
        FlatRawSnoc(Accepted(chunks[..i]), Strip(text));
        fullText := fullText + Strip(text) + " ";
        previousText := Strip(text);
      }
    }
    assert chunks[..|chunks|] == chunks;
    formattedText, fullText := Strip(formattedText), Strip(fullText);
  }

  // ---------------------------------------------------------------------
  // The timestamped transcript

  /** A line is its tag, one space, the trimmed text and a newline. */
  lemma LineShape(c: Chunk)
    ensures Line(c) == Tag(c) + " " + Strip(c.text) + "\n"
  {
    match c.timestamp
    case Some((start, end)) =>
      var open := "[" + Fmt2(start) + " - " + Fmt2(end);
      assert open + "]" + " " == open + "] ";
    case None =>
      assert "[No Timestamp]" + " " == "[No Timestamp] ";
  }

  /** The transcript is one line per chunk, in chunk order: rendering two runs
      of chunks one after the other gives their transcripts one after the other. */
  lemma FormattedRawAppend(a: seq<Chunk>, b: seq<Chunk>)
    ensures FormattedRaw(a + b) == FormattedRaw(a) + FormattedRaw(b)
  {
    ConcatMapAppend(Line, a, b);
  }

  /** A chunk whose trimmed text has no newline contributes exactly one newline. */
  lemma LineNewlines(c: Chunk)
    requires '\n' !in Strip(c.text)
    ensures multiset(Line(c))['\n'] == 1
  {
    LineShape(c);
    TagNoNewline(c);
    OneNewline(Tag(c), Strip(c.text));
  }

  lemma TagNoNewline(c: Chunk)
    ensures '\n' !in Tag(c)
  {
    var tag := Tag(c);
    forall i | 0 <= i < |tag| ensures tag[i] != '\n' {
      assert !IsSpace(tag[i]) || tag[i] == ' ';
    }
  }

  lemma OneNewline(tag: string, t: string)
    requires '\n' !in tag && '\n' !in t
    ensures multiset(tag + " " + t + "\n")['\n'] == 1
  {
    assert multiset(tag + " " + t + "\n") == multiset(tag) + multiset(" ") + multiset(t) + multiset("\n");
  }

  /** When no trimmed chunk text holds a newline of its own, the transcript
      before the final strip has exactly as many newlines as there are chunks. */
  lemma {:induction false} NewlineCount(cs: seq<Chunk>)
    requires forall k :: 0 <= k < |cs| ==> '\n' !in Strip(cs[k].text)
    ensures multiset(FormattedRaw(cs))['\n'] == |cs|
  {
    if cs != [] {
      var pre := cs[..|cs| - 1];
      NewlineCount(pre);
      LineNewlines(cs[|cs| - 1]);
      assert multiset(FormattedRaw(cs)) == multiset(FormattedRaw(pre)) + multiset(Line(cs[|cs| - 1]));
    }
  }

  lemma {:induction false} FormattedRawStart(cs: seq<Chunk>)
    requires cs != []
    ensures |FormattedRaw(cs)| > 0 && FormattedRaw(cs)[0] == '['
  {
    LineShape(cs[|cs| - 1]);
    FormattedRawSnoc(cs);
    if |cs| > 1 {
      FormattedRawStart(cs[..|cs| - 1]);
    } else {
      assert cs[..0] == [];
    }
  }

  /** The returned transcript is every line but the last in full, then the last
      line without its newline, and without the space after the tag when the
      last chunk's text trims to nothing. */
  lemma FormattedTextShape(cs: seq<Chunk>)
    requires cs != []
    ensures var last := cs[|cs| - 1];
      var t := Strip(last.text);
      FormattedText(cs) ==
        FormattedRaw(cs[..|cs| - 1]) + Tag(last) + (if t == "" then "" else " " + t)
  {
    var pre, last := cs[..|cs| - 1], cs[|cs| - 1];
    LineShape(last);
    if pre != [] {
      FormattedRawStart(pre);
    }
    assert FormattedRaw(cs) == FormattedRaw(pre) + Line(last);
    StripLastLine(FormattedRaw(pre), Tag(last), Strip(last.text));
  }

  /** `strip()` on earlier lines followed by one last line takes off that
      line's newline, and the space before an empty text. */
  lemma StripLastLine(p: string, tag: string, t: string)
    requires p == [] || p[0] == '['
    requires |tag| >= 2 && tag[0] == '[' && tag[|tag| - 1] == ']'
    requires IsStripped(t)
    ensures Strip(p + (tag + " " + t + "\n")) == p + tag + (if t == "" then "" else " " + t)
  {
    var x := p + tag + (if t == "" then "" else " " + t);
    var tail := if t == "" then " \n" else "\n";
    assert p + (tag + " " + t + "\n") == x + tail;
    assert x[0] == '[';
    assert !IsSpace(x[|x| - 1]);
    assert AllSpace(tail);
    StripExact(x, tail);
  }

  /** The transcript is empty exactly when there are no chunks. */
  lemma FormattedTextEmptyIff(cs: seq<Chunk>)
    ensures FormattedText(cs) == "" <==> cs == []
  {
    if cs != [] {
      FormattedTextShape(cs);
    } else {
      assert LStrip("") == "";
    }
  }

  // ---------------------------------------------------------------------
  // The flat transcript

  /** The accepted texts never hold two equal neighbours. */
  lemma {:induction false} AcceptedNoAdjacentDup(cs: seq<Chunk>)
    ensures NoAdjacentDup(Accepted(cs))
  {
    if cs != [] {
      var pre := cs[..|cs| - 1];
      var acc, t := Accepted(pre), Strip(cs[|cs| - 1].text);
      AcceptedNoAdjacentDup(pre);
      if t != LastOr(acc, "") {
        assert Accepted(cs) == acc + [t];
        forall i | 0 < i < |acc| + 1 ensures (acc + [t])[i - 1] != (acc + [t])[i] {
          if i < |acc| {
            assert (acc + [t])[i - 1] == acc[i - 1] && (acc + [t])[i] == acc[i];
          }
        }
      } else {
        assert Accepted(cs) == acc;
      }
    }
  }

  /** The accepted texts are the trimmed texts with some deleted, in order. */
  lemma {:induction false} AcceptedSubsequence(cs: seq<Chunk>)
    ensures IsSubsequence(Accepted(cs), Trimmed(cs))
  {
    if cs != [] {
      var pre := cs[..|cs| - 1];
      AcceptedSubsequence(pre);
      SubsequenceDropLast(Accepted(pre), Trimmed(pre), Strip(cs[|cs| - 1].text));
    }
  }

  /** Every accepted text is stripped. */
  lemma {:induction false} AcceptedStripped(cs: seq<Chunk>)
    ensures forall k :: 0 <= k < |Accepted(cs)| ==> IsStripped(Accepted(cs)[k])
  {
    if cs != [] {
      AcceptedStripped(cs[..|cs| - 1]);
    }
  }

  /** The skip rule compares with the last accepted text; it agrees with
      dropping every trimmed text equal to the trimmed text just before it,
      with `""` standing before the first chunk. */
  lemma {:induction false} AcceptedIsDedup(cs: seq<Chunk>)
    ensures [""] + Accepted(cs) == Dedup([""] + Trimmed(cs))
  {
    if cs == [] {
      assert [""] + Trimmed(cs) == [""];
    } else {
      var pre := cs[..|cs| - 1];
      var acc, t := Accepted(pre), Strip(cs[|cs| - 1].text);
      AcceptedIsDedup(pre);
      var ws, ws' := [""] + Trimmed(cs), [""] + Trimmed(pre);
      assert Trimmed(cs) == Trimmed(pre) + [t];
      assert ws[..|ws| - 1] == ws' && ws[|ws| - 1] == t && ws[|ws| - 2] == ws'[|ws'| - 1];
      assert Dedup(ws) == if t != ws'[|ws'| - 1] then Dedup(ws') + [t] else Dedup(ws');
      DedupEnds(ws');
      assert LastOr(acc, "") == ([""] + acc)[|acc|];
      assert Accepted(cs) == if t != LastOr(acc, "") then acc + [t] else acc;
      assert [""] + (acc + [t]) == ([""] + acc) + [t];
    }
  }

  /** No text is accepted exactly when every chunk text trims to nothing. */
  lemma {:induction false} AcceptedEmptyIff(cs: seq<Chunk>)
    ensures Accepted(cs) == [] <==> forall k :: 0 <= k < |cs| ==> Trimmed(cs)[k] == ""
  {
    if cs != [] {
      var pre := cs[..|cs| - 1];
      var acc, t := Accepted(pre), Strip(cs[|cs| - 1].text);
      AcceptedEmptyIff(pre);
      assert Trimmed(cs) == Trimmed(pre) + [t];
      assert Accepted(cs) == if t != LastOr(acc, "") then acc + [t] else acc;
      if forall k :: 0 <= k < |cs| ==> Trimmed(cs)[k] == "" {
        assert forall k :: 0 <= k < |pre| ==> Trimmed(pre)[k] == Trimmed(cs)[k];
        assert t == Trimmed(cs)[|cs| - 1];
      }
    }
  }

  /** `previous_text` starts as `""`, so the first accepted text is never empty. */
  lemma {:induction false} AcceptedFirstNonEmpty(cs: seq<Chunk>)
    ensures Accepted(cs) != [] ==> Accepted(cs)[0] != ""
  {
    if cs != [] {
      AcceptedFirstNonEmpty(cs[..|cs| - 1]);
    }
  }

  lemma TrimmedAppend(a: seq<Chunk>, b: seq<Chunk>)
    ensures Trimmed(a + b) == Trimmed(a) + Trimmed(b)
  {
    var ab, ta, tb := a + b, Trimmed(a), Trimmed(b);
    TrimmedAt(ab);
    TrimmedAt(a);
    TrimmedAt(b);
    forall k | 0 <= k < |ab| ensures Trimmed(ab)[k] == (ta + tb)[k] {
      if k < |a| {
        assert ab[k] == a[k];
      } else {
        assert ab[k] == b[k - |a|];
      }
    }
  }

  /** Leading chunks whose text trims to nothing change nothing in the flat text. */
  lemma LeadingEmptyVanish(empties: seq<Chunk>, rest: seq<Chunk>)
    requires forall k :: 0 <= k < |empties| ==> Strip(empties[k].text) == ""
    ensures Accepted(empties + rest) == Accepted(rest)
  {
    TrimmedAppend(empties, rest);
    TrimmedAt(empties);
    AcceptedIsDedup(empties + rest);
    AcceptedIsDedup(rest);
    SentinelDedupSkips("", Accepted(empties + rest), Accepted(rest), Trimmed(empties), Trimmed(rest));
  }

  lemma SentinelDedupSkips<T>(x: T, a1: seq<T>, a2: seq<T>, e: seq<T>, r: seq<T>)
    requires forall k :: 0 <= k < |e| ==> e[k] == x
    requires [x] + a1 == Dedup([x] + (e + r)) && [x] + a2 == Dedup([x] + r)
    ensures a1 == a2
  {
    assert [x] + (e + r) == [x] + e + r;
    DedupSkipsRepeats(x, e, r);
    ConsInjective(x, a1, a2);
  }

  lemma ConsInjective<T>(x: T, a: seq<T>, b: seq<T>)
    requires [x] + a == [x] + b
    ensures a == b
  {
    assert a == ([x] + a)[1..];
    assert b == ([x] + b)[1..];
  }

  lemma {:induction false} TrimmedAt(cs: seq<Chunk>)
    ensures forall k :: 0 <= k < |cs| ==> Trimmed(cs)[k] == Strip(cs[k].text)
  {
    if cs != [] {
      var pre := cs[..|cs| - 1];
      TrimmedAt(pre);
      assert Trimmed(cs) == Trimmed(pre) + [Strip(cs[|cs| - 1].text)];
    }
  }

  /** Before the final strip, the flat text is the accepted texts joined by
      spaces, with one more space at the end. */
  lemma {:induction false} FlatRawJoin(acc: seq<string>)
    requires acc != []
    ensures FlatRaw(acc) == Join(acc, " ") + " "
  {
    if |acc| == 1 {
      assert acc[..0] == [];
    } else {
      var pre := acc[..|acc| - 1];
      FlatRawJoin(pre);
      JoinSnoc(pre, acc[|acc| - 1], " ");
      assert pre + [acc[|acc| - 1]] == acc;
    }
  }

  lemma {:induction false} JoinEnds(ws: seq<string>, sep: string)
    requires ws != [] && ws[0] != [] && ws[|ws| - 1] != []
    ensures |Join(ws, sep)| > 0
    ensures Join(ws, sep)[0] == ws[0][0]
    ensures Join(ws, sep)[|Join(ws, sep)| - 1] == ws[|ws| - 1][|ws[|ws| - 1]| - 1]
  {
    if |ws| > 1 {
      var pre := ws[..|ws| - 1];
      JoinSnoc(pre, ws[|ws| - 1], sep);
      assert pre + [ws[|ws| - 1]] == ws;
      assert Join(ws, sep) == ws[0] + sep + Join(ws[1..], sep);
    }
  }

  /** For trimmed texts, the first of them non-empty, stripping the flat
      accumulator is stripping their space-joined form, and is that form itself
      when the last text is non-empty. */
  lemma StripFlatRaw(acc: seq<string>)
    requires acc != [] && acc[0] != ""
    requires forall k :: 0 <= k < |acc| ==> IsStripped(acc[k])
    ensures Strip(FlatRaw(acc)) == Strip(Join(acc, " "))
    ensures acc[|acc| - 1] != "" ==> Strip(FlatRaw(acc)) == Join(acc, " ")
  {
    FlatRawJoin(acc);
    var j := Join(acc, " ");
    assert |j| > 0 && !IsSpace(j[0]) by {
      if |acc| > 1 {
        assert j == acc[0] + " " + Join(acc[1..], " ");
      }
    }
    LStripNoop(j);
    LStripNoop(j + " ");
    RStripTrailing(j, " ");
    if acc[|acc| - 1] != "" {
      JoinEnds(acc, " ");
      StripFixpoint(j);
    }
  }

  /** The returned flat text is the accepted texts joined by single spaces and
      stripped; the strip only matters when the last accepted text is empty. */
  lemma FlatTextIsJoin(cs: seq<Chunk>)
    ensures FlatText(cs) == Strip(Join(Accepted(cs), " "))
    ensures Accepted(cs) == [] || Accepted(cs)[|Accepted(cs)| - 1] != "" ==>
      FlatText(cs) == Join(Accepted(cs), " ")
  {
    var acc := Accepted(cs);
    if acc == [] {
      assert LStrip("") == "";
    } else {
      AcceptedFirstNonEmpty(cs);
      AcceptedStripped(cs);
      StripFlatRaw(acc);
    }
  }

  /** A result without a `chunks` entry, or with an empty one, gives two empty strings. */
  lemma NoChunks(t: Transcription)
    requires t == None || t == Some([])
    ensures FormattedText(ChunksOf(t)) == "" && FlatText(ChunksOf(t)) == ""
  {
    assert LStrip("") == "";
  }

  // ---------------------------------------------------------------------
  // Worked examples

  /** A chunk without a timestamp gives the line `[No Timestamp] test`. */
  lemma ExampleNoTimestamp()
    ensures FormattedText([Chunk("test", None)]) == "[No Timestamp] test"
  {
    var cs := [Chunk("test", None)];
    StripFixpoint("test");
    FormattedTextShape(cs);
    assert cs[..0] == [];
  }

  function ExampleChunks(): seq<Chunk> {
    [Chunk("hello world", Some((0, 100))), Chunk("hello world", Some((100, 200))),
     Chunk("goodbye", Some((200, 300)))]
  }

  /** The line of a chunk timed from `a` to `b` whole seconds. */
  lemma WholeSecondsLine(c: Chunk, a: nat, b: nat)
    requires c.timestamp == Some((a * 100, b * 100))
    ensures Tag(c) == "[" + NatStr(a) + ".00 - " + NatStr(b) + ".00]"
    ensures Line(c) == "[" + NatStr(a) + ".00 - " + NatStr(b) + ".00] " + Strip(c.text) + "\n"
  {
    Fmt2Whole(a);
    Fmt2Whole(b);
  }

  /** The same line for times under ten seconds and a text that needs no
      trimming, digit by digit. */
  lemma SingleDigitLine(c: Chunk, a: nat, b: nat)
    requires a < 10 && b < 10 && c.timestamp == Some((a * 100, b * 100))
    requires IsStripped(c.text)
    ensures Tag(c) == "[" + [DigitChar(a)] + ".00 - " + [DigitChar(b)] + ".00]"
    ensures Line(c) == "[" + [DigitChar(a)] + ".00 - " + [DigitChar(b)] + ".00] " + c.text + "\n"
  {
    WholeSecondsLine(c, a, b);
    StripFixpoint(c.text);
  }

  /** Two equal texts and a third one, all timestamped: every chunk gets its
      line. */
  lemma ExampleFormatted(cs: seq<Chunk>)
    requires cs == ExampleChunks()
    ensures FormattedText(cs) ==
      "[0.00 - 1.00] hello world\n[1.00 - 2.00] hello world\n[2.00 - 3.00] goodbye"
  {
    var last := cs[2];
    SingleDigitLine(last, 2, 3);
    StripFixpoint(last.text);
    ExampleFormattedPrefix(cs);
    assert cs[..|cs| - 1] == cs[..2];
    LastLineKnown(cs, FormattedRaw(cs[..2]), Tag(last), last.text);
    ExampleFormattedText(FormattedRaw(cs[..2]), Tag(last), last.text);
  }

  lemma LastLineKnown(cs: seq<Chunk>, p: string, tag: string, t: string)
    requires cs != [] && t != ""
    requires FormattedRaw(cs[..|cs| - 1]) == p
    requires Tag(cs[|cs| - 1]) == tag && Strip(cs[|cs| - 1].text) == t
    ensures FormattedText(cs) == p + (tag + " " + t)
  {
    FormattedTextShape(cs);
  }

  lemma ExampleFormattedText(p: string, tag: string, t: string)
    requires p == "[0.00 - 1.00] hello world\n[1.00 - 2.00] hello world\n"
    requires tag == "[" + [DigitChar(2)] + ".00 - " + [DigitChar(3)] + ".00]" && t == "goodbye"
    ensures p + (tag + " " + t) ==
      "[0.00 - 1.00] hello world\n[1.00 - 2.00] hello world\n[2.00 - 3.00] goodbye"
  {
  }

  /** The first two lines of the same chunks. */
  lemma ExampleFormattedPrefix(cs: seq<Chunk>)
    requires cs == ExampleChunks()
    ensures FormattedRaw(cs[..2]) == "[0.00 - 1.00] hello world\n[1.00 - 2.00] hello world\n"
  {
    SingleDigitLine(cs[0], 0, 1);
    SingleDigitLine(cs[1], 1, 2);
    assert cs[..2][..1] == cs[..1];
    assert cs[..1][..0] == [];
    FormattedRawSnoc(cs[..1]);
    FormattedRawSnoc(cs[..2]);
    var l0, l1 := Line(cs[0]), Line(cs[1]);
    ExampleLine0(l0, cs[0].text);
    ExampleLine1(l1, cs[1].text);
    ExampleTwoLines(l0, l1);
  }

  lemma ExampleLine0(l: string, t: string)
    requires t == "hello world"
    requires l == "[" + [DigitChar(0)] + ".00 - " + [DigitChar(1)] + ".00] " + t + "\n"
    ensures l == "[0.00 - 1.00] hello world\n"
  {
  }

  lemma ExampleLine1(l: string, t: string)
    requires t == "hello world"
    requires l == "[" + [DigitChar(1)] + ".00 - " + [DigitChar(2)] + ".00] " + t + "\n"
    ensures l == "[1.00 - 2.00] hello world\n"
  {
  }

  lemma ExampleTwoLines(l0: string, l1: string)
    requires l0 == "[0.00 - 1.00] hello world\n" && l1 == "[1.00 - 2.00] hello world\n"
    ensures l0 + l1 == "[0.00 - 1.00] hello world\n[1.00 - 2.00] hello world\n"
  {
  }

  /** The same chunks: the repeated text enters the flat text once. */
  lemma ExampleFlat(cs: seq<Chunk>)
    requires cs == ExampleChunks()
    ensures FlatText(cs) == "hello world goodbye"
  {
    ExampleAccepted(cs);
    FlatTextIsJoin(cs);
    JoinExample(Accepted(cs));
  }

  lemma JoinExample(acc: seq<string>)
    requires acc == ["hello world", "goodbye"]
    ensures Join(acc, " ") == "hello world goodbye"
  {
    assert acc[1..] == ["goodbye"];
  }

  lemma ExampleAccepted(cs: seq<Chunk>)
    requires cs == ExampleChunks()
    ensures Accepted(cs) == ["hello world", "goodbye"]
  {
    StripFixpoint("hello world");
    StripFixpoint("goodbye");
    assert cs[..1][..0] == [];
    assert Accepted(cs[..1]) == ["hello world"];
    assert cs[..2][..1] == cs[..1];
    assert Accepted(cs[..2]) == ["hello world"];
    assert cs[..3][..2] == cs[..2];
    assert cs[..3] == cs;
  }
}
