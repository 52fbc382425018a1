/** The decoding loop over a capture (cf-nf_data.py lines 31 and 65-130):
    which lines every accepted frame appends to which output file, and how a
    field that does not parse ends the whole run, leaving behind the lines
    already written. */
module Pipeline {
  import opened Optional
  import Numerals
  import opened PyConv
  import opened Splitting
  import opened Frames
  import opened Layout
  import opened Decoding

  /** An output file: the combined analog file, or the file of table field
      `index`. */
  datatype Sink = Combined | FieldSink(index: nat)

  predicate ValidSink(s: Sink) {
    s.FieldSink? ==> s.index < FieldCount
  }

  /** One line appended to one sink. */
  datatype Write = Write(sink: Sink, line: string)

  /** The lines appended by a frame or a run, in order, and whether it got to
      the end without a parse failure. */
  datatype Outcome = Outcome(writes: seq<Write>, completed: bool)

  /** The decode result of every field of a critical region, in table order;
      `None` where `int(text, 16)` would raise. */
  function Results(c: seq<Token>): (rs: seq<Option<Decoded>>)
    requires |c| == CriticalTokens
    ensures |rs| == FieldCount
  {
    seq(FieldCount, i requires 0 <= i < FieldCount => DecodeAt(c, i))
  }

  /** Fields `lo` to `hi - 1` all decode. */
  predicate DecodesRange(rs: seq<Option<Decoded>>, lo: nat, hi: nat)
    requires hi <= |rs|
  {
    forall i :: lo <= i < hi ==> rs[i].Some?
  }

  /** A range whose first field decodes decodes when the rest of it does. */
  lemma DecodesRangeFrom(rs: seq<Option<Decoded>>, lo: nat, hi: nat)
    requires lo < hi <= |rs| && rs[lo].Some?
    ensures DecodesRange(rs, lo, hi) <==> DecodesRange(rs, lo + 1, hi)
  {
  }

  /** Every field decodes. */
  predicate Decodable(rs: seq<Option<Decoded>>)
    requires |rs| == FieldCount
  {
    DecodesRange(rs, 0, FieldCount)
  }

  /** The four masked analog fields decode (lines 98-101). */
  predicate AnalogParses(rs: seq<Option<Decoded>>)
    requires |rs| == FieldCount
  {
    rs[Ana0].Some? && rs[Ana1].Some? && rs[Ana2].Some? && rs[Ana3].Some?
  }

  /** The line field `i` writes to its own file. */
  function FieldLine(rs: seq<Option<Decoded>>, i: nat): string
    requires i < |rs| && rs[i].Some?
  {
    Written(rs[i].value) + "\n"
  }

  /** The texts of ana_0, ana_1, ana_2 and ana_3, in that order. */
  function AnalogTexts(rs: seq<Option<Decoded>>): seq<string>
    requires |rs| == FieldCount && AnalogParses(rs)
  {
    [Written(rs[Ana0].value), Written(rs[Ana1].value), Written(rs[Ana2].value), Written(rs[Ana3].value)]
  }

  /** The combined analog line (lines 103-106): ana_0, ana_1, ana_2 and ana_3,
      tab-separated and newline-terminated. Before its newline it holds a
      newline only if one of the four does, and when none of them holds a tab
      it splits on tabs back into the four. */
  function AnalogLine(rs: seq<Option<Decoded>>): (line: string)
    requires |rs| == FieldCount && AnalogParses(rs)
    ensures |line| > 0 && line[|line| - 1] == '\n'
    ensures '\n' !in line[..|line| - 1] <==> forall k :: 0 <= k < 4 ==> '\n' !in AnalogTexts(rs)[k]
    ensures (forall k :: 0 <= k < 4 ==> '\t' !in AnalogTexts(rs)[k]) ==>
              Split(line[..|line| - 1], "\t") == AnalogTexts(rs)
  {
    var ts := AnalogTexts(rs);
    var body := ts[0] + "\t" + ts[1] + "\t" + ts[2] + "\t" + ts[3];
    SplitOnTabs(ts[0], ts[1], ts[2], ts[3]);
    assert (body + "\n")[..|body|] == body;
    body + "\n"
  }

  /** The writes of lines 108-130 from field `j` on, in table order, up to the
      first field whose text does not parse. */
  function FieldWrites(rs: seq<Option<Decoded>>, j: nat): (r: Outcome)
    requires |rs| == FieldCount && j <= FieldCount
    ensures r.completed <==> DecodesRange(rs, j, FieldCount)
    decreases FieldCount - j
  {
    if j == FieldCount then Outcome([], true)
    else if rs[j].None? then Outcome([], false)
    else
      var rest := FieldWrites(rs, j + 1);
      Outcome([Write(FieldSink(j), FieldLine(rs, j))] + rest.writes, rest.completed)
  }

  /** One accepted frame: the four analog fields are parsed first, and a
      failure there writes nothing; otherwise the combined line is written and
      then every field in table order until one fails. */
  function FrameWrites(rs: seq<Option<Decoded>>): (r: Outcome)
    requires |rs| == FieldCount
    ensures r.completed <==> Decodable(rs)
  {
    if AnalogParses(rs) then
      var fields := FieldWrites(rs, 0);
      Outcome([Write(Combined, AnalogLine(rs))] + fields.writes, fields.completed)
    else Outcome([], false)
  }

  /** The lines of `ws` that go to sink `s`, in order: the file's contents. */
  function SinkLines(ws: seq<Write>, s: Sink): (lines: seq<string>)
  {
    if |ws| == 0 then []
    else (if ws[0].sink == s then [ws[0].line] else []) + SinkLines(ws[1..], s)
  }

  lemma {:induction false} SinkLinesAppend(a: seq<Write>, b: seq<Write>, s: Sink)
    ensures SinkLines(a + b, s) == SinkLines(a, s) + SinkLines(b, s)
    decreases |a|
  {
    if |a| == 0 {
      assert a + b == b;
    } else {
      assert (a + b)[1..] == a[1..] + b;
      SinkLinesAppend(a[1..], b, s);
    }
  }

  /** A write adds its line to its own sink and to no other. */
  lemma SinkLinesCons(w: Write, ws: seq<Write>, s: Sink)
    ensures SinkLines([w] + ws, s) == (if w.sink == s then [w.line] else []) + SinkLines(ws, s)
  {
    assert ([w] + ws)[1..] == ws;
  }

  /** From field `j` on, the file of field `i` receives one line exactly when
      fields `j` to `i` all parse. */
  lemma {:induction false} FieldWritesSink(rs: seq<Option<Decoded>>, j: nat, s: Sink)
    requires |rs| == FieldCount && j <= FieldCount
    ensures SinkLines(FieldWrites(rs, j).writes, s) ==
              if s.FieldSink? && j <= s.index < FieldCount && DecodesRange(rs, j, s.index + 1)
              then [FieldLine(rs, s.index)] else []
    decreases FieldCount - j
  {
    var lines := SinkLines(FieldWrites(rs, j).writes, s);
    if j == FieldCount {
      assert lines == [];
    } else if rs[j].None? {
      assert lines == [];
      assert s.FieldSink? && j <= s.index < FieldCount ==> !DecodesRange(rs, j, s.index + 1);
    } else {
      var w, tail := Write(FieldSink(j), FieldLine(rs, j)), FieldWrites(rs, j + 1).writes;
      assert FieldWrites(rs, j).writes == [w] + tail;
      SinkLinesCons(w, tail, s);
      FieldWritesSink(rs, j + 1, s);
      if s == FieldSink(j) {
        assert lines == [FieldLine(rs, j)] + SinkLines(tail, s);
        assert SinkLines(tail, s) == [];
        assert DecodesRange(rs, j, j + 1);
      } else if s.FieldSink? && j < s.index < FieldCount {
        assert lines == SinkLines(tail, s);
        DecodesRangeFrom(rs, j, s.index + 1);
      } else {
        assert lines == SinkLines(tail, s) == [];
      }
    }
  }

  /** What one frame leaves in each file. If the analog fields do not parse,
      nothing; otherwise the combined line, and in the file of field `i` its
      line exactly when fields 0 to `i` all parse. A fully decodable frame
      writes one line to every file. */
  lemma FrameSinkLines(rs: seq<Option<Decoded>>, s: Sink)
    requires |rs| == FieldCount && ValidSink(s)
    ensures SinkLines(FrameWrites(rs).writes, s) ==
              if !AnalogParses(rs) then []
              else if s == Combined then [AnalogLine(rs)]
              else if DecodesRange(rs, 0, s.index + 1) then [FieldLine(rs, s.index)]
              else []
    ensures |SinkLines(FrameWrites(rs).writes, s)| <= 1
    ensures Decodable(rs) ==> SinkLines(FrameWrites(rs).writes, s) == [LineFor(rs, s)]
  {
    if AnalogParses(rs) {
      var head := [Write(Combined, AnalogLine(rs))];
      SinkLinesAppend(head, FieldWrites(rs, 0).writes, s);
      FieldWritesSink(rs, 0, s);
      assert SinkLines(head, s) == if s == Combined then [AnalogLine(rs)] else [];
    }
  }

  /** The line a fully decodable frame appends to sink `s`. */
  function LineFor(rs: seq<Option<Decoded>>, s: Sink): string
    requires |rs| == FieldCount && Decodable(rs) && ValidSink(s)
  {
    if s == Combined then AnalogLine(rs) else FieldLine(rs, s.index)
  }

  /** The decode results of an accepted frame's critical region. */
  function FrameResults(p: string): (rs: seq<Option<Decoded>>)
    requires IsFrame(p)
    ensures |rs| == FieldCount
  {
    Results(Normalize(p).critical)
  }

  /** The decoding loop (lines 65-130): a piece that is not 244 characters
      long is skipped; a frame that fails to parse ends the run, after the
      lines it has already written. */
  function Process(pieces: seq<string>): (r: Outcome)
    ensures r.completed <==> forall p :: p in pieces && IsFrame(p) ==> FrameDecodes(p)
    decreases |pieces|
  {
    if |pieces| == 0 then Outcome([], true)
    else if !IsFrame(pieces[0]) then Process(pieces[1..])
    else
      var frame := FrameWrites(FrameResults(pieces[0]));
      if !frame.completed then frame
      else
        var rest := Process(pieces[1..]);
        Outcome(frame.writes + rest.writes, rest.completed)
  }

  /** The whole capture: split on the sync word, then decoded piece by piece
      (lines 30-31, 65-130). */
  function DecodeCapture(capture: string): (r: Outcome)
    ensures r.completed <==>
              forall p :: p in Split(capture, SyncWord) && IsFrame(p) ==> FrameDecodes(p)
  {
    Process(Split(capture, SyncWord))
  }

  /** The pieces that are decoded, in capture order. */
  function Accepted(pieces: seq<string>): (frames: seq<string>)
    ensures |frames| <= |pieces|
    ensures forall k :: 0 <= k < |frames| ==> IsFrame(frames[k])
    ensures forall p :: p in frames <==> p in pieces && IsFrame(p)
  {
    if |pieces| == 0 then []
    else (if IsFrame(pieces[0]) then [pieces[0]] else []) + Accepted(pieces[1..])
  }

  /** Acceptance works piece by piece: it keeps capture order. */
  lemma {:induction false} AcceptedAppend(a: seq<string>, b: seq<string>)
    ensures Accepted(a + b) == Accepted(a) + Accepted(b)
    decreases |a|
  {
    if |a| == 0 {
      assert a + b == b;
    } else {
      assert (a + b)[1..] == a[1..] + b;
      AcceptedAppend(a[1..], b);
    }
  }

  /** Pieces that are not frames contribute nothing: the run over the capture
      is the run over its accepted frames alone. */
  lemma {:induction false} SkipRejected(pieces: seq<string>)
    ensures Process(Accepted(pieces)) == Process(pieces)
    decreases |pieces|
  {
    if |pieces| > 0 {
      SkipRejected(pieces[1..]);
      var acc := Accepted(pieces);
      if IsFrame(pieces[0]) {
        assert acc[0] == pieces[0] && acc[1..] == Accepted(pieces[1..]);
      } else {
        assert acc == Accepted(pieces[1..]);
      }
    }
  }

  /** A frame the decoder accepts and fully decodes. */
  predicate FrameDecodes(p: string) {
    IsFrame(p) && Decodable(FrameResults(p))
  }

  /** A sequence of per-frame decode results. */
  predicate Records(recs: seq<seq<Option<Decoded>>>) {
    forall k :: 0 <= k < |recs| ==> |recs[k]| == FieldCount
  }

  /** The decode results of each frame, in order. */
  function RecordsOf(frames: seq<string>): (recs: seq<seq<Option<Decoded>>>)
    requires forall k :: 0 <= k < |frames| ==> IsFrame(frames[k])
    ensures Records(recs) && |recs| == |frames|
  {
    seq(|frames|, k requires 0 <= k < |frames| => FrameResults(frames[k]))
  }

  /** The loop over frames already decoded: each frame's writes, up to and
      including the first frame that fails. */
  function Run(recs: seq<seq<Option<Decoded>>>): Outcome
    requires Records(recs)
  {
    if |recs| == 0 then Outcome([], true)
    else
      var frame := FrameWrites(recs[0]);
      if !frame.completed then frame
      else
        var rest := Run(recs[1..]);
        Outcome(frame.writes + rest.writes, rest.completed)
  }

  /** The records of all frames but the first are the records after the first. */
  lemma RecordsOfTail(frames: seq<string>)
    requires |frames| > 0 && forall k :: 0 <= k < |frames| ==> IsFrame(frames[k])
    ensures RecordsOf(frames)[1..] == RecordsOf(frames[1..])
  {
    var rest := frames[1..];
    forall k | 0 <= k < |rest| ensures RecordsOf(frames)[1..][k] == RecordsOf(rest)[k] {
      assert rest[k] == frames[k + 1];
    }
  }

  /** Over accepted frames the decoding loop is `Run` over their results. */
  lemma {:induction false} ProcessIsRun(frames: seq<string>)
    requires forall k :: 0 <= k < |frames| ==> IsFrame(frames[k])
    ensures Process(frames) == Run(RecordsOf(frames))
    decreases |frames|
  {
    if |frames| > 0 {
      var rest, recs := frames[1..], RecordsOf(frames);
      RecordsOfTail(frames);
      var frame := FrameWrites(recs[0]);
      assert frame == FrameWrites(FrameResults(frames[0]));
      ProcessIsRun(rest);
      if frame.completed {
        assert Process(frames) == Outcome(frame.writes + Process(rest).writes, Process(rest).completed);
        assert Run(recs) == Outcome(frame.writes + Run(recs[1..]).writes, Run(recs[1..]).completed);
      } else {
        assert Process(frames) == frame;
        assert Run(recs) == frame;
      }
    }
  }

  /** The position of the first record that does not fully decode, or the
      number of records when they all do. */
  function FirstFailure(recs: seq<seq<Option<Decoded>>>): (n: nat)
    requires Records(recs)
    ensures n <= |recs|
    ensures forall k :: 0 <= k < n ==> Decodable(recs[k])
    ensures n < |recs| ==> !Decodable(recs[n])
  {
    if |recs| == 0 || !Decodable(recs[0]) then 0
    else 1 + FirstFailure(recs[1..])
  }

  /** What the record at the first failure leaves in sink `s`, if any. */
  function PartialRow(recs: seq<seq<Option<Decoded>>>, s: Sink): seq<string>
    requires Records(recs)
  {
    var n := FirstFailure(recs);
    if n < |recs| then SinkLines(FrameWrites(recs[n]).writes, s) else []
  }

  /** Sink `s` holds one line per record before record `n`, the k-th from the
      k-th record, followed by `tail`. */
  predicate Aligned(lines: seq<string>, recs: seq<seq<Option<Decoded>>>, n: nat, s: Sink, tail: seq<string>)
    requires ValidSink(s) && Records(recs) && n <= |recs|
    requires forall k :: 0 <= k < n ==> Decodable(recs[k])
  {
    && |lines| == n + |tail|
    && (forall k :: 0 <= k < n ==> lines[k] == LineFor(recs[k], s))
    && lines[n..] == tail
  }

  /** Alignment extends by one record at the front. */
  lemma ConsAligned(recs: seq<seq<Option<Decoded>>>, s: Sink, n: nat, later: seq<string>, tail: seq<string>)
    requires ValidSink(s) && Records(recs) && 1 <= n <= |recs|
    requires forall k :: 0 <= k < n ==> Decodable(recs[k])
    requires Aligned(later, recs[1..], n - 1, s, tail)
    ensures Aligned([LineFor(recs[0], s)] + later, recs, n, s, tail)
  {
    var lines := [LineFor(recs[0], s)] + later;
    forall k | 0 <= k < n ensures lines[k] == LineFor(recs[k], s) {
      if k > 0 {
        assert recs[1..][k - 1] == recs[k];
      }
    }
    assert lines[n..] == later[n - 1..];
  }

  /** Over a sequence of records, each file holds one line per record before
      the first failing one, in order, followed by whatever the failing record
      wrote before its parse failure; the run completes exactly when no record
      fails. */
  lemma {:induction false} RunSinkLines(recs: seq<seq<Option<Decoded>>>, s: Sink)
    requires ValidSink(s) && Records(recs)
    ensures Run(recs).completed <==> FirstFailure(recs) == |recs|
    ensures Aligned(SinkLines(Run(recs).writes, s), recs, FirstFailure(recs), s, PartialRow(recs, s))
    decreases |recs|
  {
    if |recs| > 0 && Decodable(recs[0]) {
      var rest := recs[1..];
      var n := FirstFailure(recs);
      assert n == FirstFailure(rest) + 1;
      RunSinkLines(rest, s);
      var lines, later := SinkLines(Run(recs).writes, s), SinkLines(Run(rest).writes, s);
      assert lines == [LineFor(recs[0], s)] + later by {
        var head := FrameWrites(recs[0]).writes;
        assert Run(recs).writes == head + Run(rest).writes;
        SinkLinesAppend(head, Run(rest).writes, s);
        FrameSinkLines(recs[0], s);
      }
      assert PartialRow(recs, s) == PartialRow(rest, s) by {
        if n < |recs| { assert recs[n] == rest[n - 1]; }
      }
      ConsAligned(recs, s, n, later, PartialRow(rest, s));
    } else if |recs| > 0 {
      assert Run(recs) == FrameWrites(recs[0]);
    }
  }

  /** Each file's lines from a capture: one per accepted frame, in capture
      order, up to the first frame that does not decode; then the partial row
      of that frame, and nothing after it. */
  lemma CaptureSinkLines(capture: string, s: Sink)
    requires ValidSink(s)
    ensures var recs := RecordsOf(Accepted(Split(capture, SyncWord)));
            && (DecodeCapture(capture).completed <==> FirstFailure(recs) == |recs|)
            && Aligned(SinkLines(DecodeCapture(capture).writes, s), recs, FirstFailure(recs), s,
                       PartialRow(recs, s))
  {
    var pieces := Split(capture, SyncWord);
    SkipRejected(pieces);
    ProcessIsRun(Accepted(pieces));
    RunSinkLines(RecordsOf(Accepted(pieces)), s);
  }

  /** The run completes exactly when every accepted frame fully decodes. */
  lemma RunCompletesIff(capture: string)
    ensures var frames := Accepted(Split(capture, SyncWord));
            DecodeCapture(capture).completed <==>
              forall k :: 0 <= k < |frames| ==> FrameDecodes(frames[k])
  {
    var frames := Accepted(Split(capture, SyncWord));
    var recs := RecordsOf(frames);
    CaptureSinkLines(capture, Combined);
    assert forall k :: 0 <= k < |frames| ==> recs[k] == FrameResults(frames[k]);
  }

  /** When every accepted frame decodes, every file holds exactly one line per
      accepted frame, and its k-th line comes from the k-th accepted frame. */
  lemma SinksAligned(capture: string, s: Sink)
    requires ValidSink(s) && DecodeCapture(capture).completed
    ensures var frames := Accepted(Split(capture, SyncWord));
            var lines := SinkLines(DecodeCapture(capture).writes, s);
            && |lines| == |frames|
            && forall k :: 0 <= k < |frames| ==>
                 FrameDecodes(frames[k]) && lines[k] == LineFor(FrameResults(frames[k]), s)
  {
    var frames := Accepted(Split(capture, SyncWord));
    var recs := RecordsOf(frames);
    CaptureSinkLines(capture, s);
    RunCompletesIff(capture);
    assert forall k :: 0 <= k < |frames| ==> recs[k] == FrameResults(frames[k]);
  }

  /** A run that does not complete stopped at an accepted frame that does not
      decode: the frames before it each left their line in every file, in
      order, and it left at most one more. */
  lemma FailureStopsRun(capture: string, s: Sink)
    requires ValidSink(s) && !DecodeCapture(capture).completed
    ensures var frames := Accepted(Split(capture, SyncWord));
            var n := FirstFailure(RecordsOf(frames));
            var lines := SinkLines(DecodeCapture(capture).writes, s);
            && n < |frames| && !FrameDecodes(frames[n])
            && (forall k :: 0 <= k < n ==> FrameDecodes(frames[k]))
            && n <= |lines| <= n + 1
            && (forall k :: 0 <= k < n ==> lines[k] == LineFor(FrameResults(frames[k]), s))
  {
    var frames := Accepted(Split(capture, SyncWord));
    var recs := RecordsOf(frames);
    var n := FirstFailure(recs);
    CaptureSinkLines(capture, s);
    FrameSinkLines(recs[n], s);
    assert forall k :: 0 <= k < |frames| ==> recs[k] == FrameResults(frames[k]);
  }

  /** One line of text: it ends in a newline and holds no other. */
  predicate TextLine(line: string) {
    |line| > 0 && line[|line| - 1] == '\n' && '\n' !in line[..|line| - 1]
  }

  /** A field's line is one line of text exactly when its written value holds
      no newline. */
  lemma FieldLineText(rs: seq<Option<Decoded>>, i: nat)
    requires i < |rs| && rs[i].Some?
    ensures TextLine(FieldLine(rs, i)) <==> '\n' !in Written(rs[i].value)
  {
    var line := FieldLine(rs, i);
    assert line[..|line| - 1] == Written(rs[i].value);
  }

  /** Every rule but the passthrough writes a sign and digits, never a
      newline. */
  lemma ParsedNoNewline(d: Decoded)
    requires !d.Text?
    ensures '\n' !in Written(d)
  {
    assert !Numerals.IsDigit('\n', 10) && !Numerals.IsDigit('\n', 2);
    match d
    case Number(n) => DecTextOnly(n, '\n');
    case Bits(n, w) => Numerals.AllDigitsAt(BinText(n, w), 2);
  }

  /** Only `serial_data` is written as text, and that text is the field's own
      characters. */
  lemma TextOnlySerial(c: seq<Token>, j: nat)
    requires |c| == CriticalTokens && j < FieldCount && Results(c)[j].Some?
    ensures Results(c)[j].value.Text? <==> j == 1
    ensures j == 1 ==> Written(Results(c)[j].value) == FieldText(c, 1)
  {
    var kind, text := Table[j].kind, FieldText(c, j);
    assert Results(c)[j] == DecodeField(kind, text);
    assert kind == HexPass <==> j == 1 by { PassthroughIsSerial(); }
    DecodedText(kind, text);
  }

  /** A rule decodes to text exactly when it is the passthrough. */
  lemma DecodedText(kind: DecodeKind, text: string)
    requires DecodeField(kind, text).Some?
    ensures DecodeField(kind, text).value.Text? <==> kind == HexPass
    ensures kind == HexPass ==> Written(DecodeField(kind, text).value) == text
  {
  }

  /** Every field write from field `j` on goes to the file of a field that
      parses, and carries that field's line. */
  lemma {:induction false} FieldWritesShape(rs: seq<Option<Decoded>>, j: nat)
    requires |rs| == FieldCount && j <= FieldCount
    ensures forall w :: w in FieldWrites(rs, j).writes ==>
              && w.sink.FieldSink? && j <= w.sink.index < FieldCount
              && rs[w.sink.index].Some? && w.line == FieldLine(rs, w.sink.index)
    decreases FieldCount - j
  {
    if j < FieldCount && rs[j].Some? {
      FieldWritesShape(rs, j + 1);
      assert FieldWrites(rs, j).writes
             == [Write(FieldSink(j), FieldLine(rs, j))] + FieldWrites(rs, j + 1).writes;
    }
  }

  /** The combined line holds four decimal numbers: one line of text. */
  lemma AnalogLineText(c: seq<Token>)
    requires WellFormed(c) && AnalogParses(Results(c))
    ensures TextLine(AnalogLine(Results(c)))
  {
    var ts := AnalogTexts(Results(c));
    AnalogFields();
    AnalogPart(c, Ana0);
    AnalogPart(c, Ana1);
    AnalogPart(c, Ana2);
    AnalogPart(c, Ana3);
    assert !Numerals.IsDigit('\n', 10);
    DecTextOnly(MaskedValue(c, Ana0), '\n');
    DecTextOnly(MaskedValue(c, Ana1), '\n');
    DecTextOnly(MaskedValue(c, Ana2), '\n');
    DecTextOnly(MaskedValue(c, Ana3), '\n');
    NoneHolds(ts[0], ts[1], ts[2], ts[3], '\n');
  }

  /** Each write of a frame is exactly one line of text, except the
      `serial_data` write when that field's six characters hold a newline:
      they are copied unparsed. */
  lemma FrameTextLines(c: seq<Token>)
    requires WellFormed(c)
    ensures forall w :: w in FrameWrites(Results(c)).writes ==>
              (TextLine(w.line) <==> w.sink != FieldSink(1) || '\n' !in FieldText(c, 1))
  {
    var rs := Results(c);
    if AnalogParses(rs) {
      var head := Write(Combined, AnalogLine(rs));
      var fields := FieldWrites(rs, 0).writes;
      AnalogLineText(c);
      FieldWritesShape(rs, 0);
      forall w | w in fields
        ensures TextLine(w.line) <==> w.sink != FieldSink(1) || '\n' !in FieldText(c, 1)
      {
        var i := w.sink.index;
        FieldLineText(rs, i);
        TextOnlySerial(c, i);
        if i != 1 { ParsedNoNewline(rs[i].value); }
      }
      assert FrameWrites(rs).writes == [head] + fields;
    }
  }

  /** No accepted piece holds a newline among its `serial_data` characters. */
  predicate SerialNewlineFree(pieces: seq<string>) {
    forall p :: p in pieces && IsFrame(p) ==> '\n' !in FieldText(Normalize(p).critical, 1)
  }

  /** Every write the loop sends to `s` is one line of text, unless `s` is
      `serial_data.txt` and some accepted piece puts a newline there. */
  lemma {:induction false} ProcessTextLines(pieces: seq<string>, s: Sink)
    requires s != FieldSink(1) || SerialNewlineFree(pieces)
    ensures forall w :: w in Process(pieces).writes && w.sink == s ==> TextLine(w.line)
    decreases |pieces|
  {
    if |pieces| > 0 {
      assert forall p :: p in pieces[1..] ==> p in pieces;
      ProcessTextLines(pieces[1..], s);
      if IsFrame(pieces[0]) {
        var c := Normalize(pieces[0]).critical;
        assert FrameResults(pieces[0]) == Results(c);
        FrameTextLines(c);
      }
    }
  }

  /** A file's lines are the lines of the writes sent to it. */
  lemma {:induction false} SinkTextLines(ws: seq<Write>, s: Sink)
    requires forall w :: w in ws && w.sink == s ==> TextLine(w.line)
    ensures forall k :: 0 <= k < |SinkLines(ws, s)| ==> TextLine(SinkLines(ws, s)[k])
    decreases |ws|
  {
    if |ws| > 0 {
      assert ws == [ws[0]] + ws[1..];
      SinkTextLines(ws[1..], s);
      SinkLinesCons(ws[0], ws[1..], s);
    }
  }

  /** Each line a file receives is one line of text: for every file but
      `serial_data.txt` always, and for that one when no accepted piece has a
      newline among its serial characters. Then a file's text lines are its
      writes, one per frame as `SinksAligned` counts them. */
  lemma CaptureTextLines(capture: string, s: Sink)
    requires s != FieldSink(1) || SerialNewlineFree(Split(capture, SyncWord))
    ensures var lines := SinkLines(DecodeCapture(capture).writes, s);
            forall k :: 0 <= k < |lines| ==> TextLine(lines[k])
  {
    ProcessTextLines(Split(capture, SyncWord), s);
    SinkTextLines(DecodeCapture(capture).writes, s);
  }

  /** Decimal text holds nothing but '-' and decimal digits. */
  lemma DecTextOnly(n: int, ch: char)
    requires ch != '-' && !Numerals.IsDigit(ch, 10)
    ensures ch !in DecText(n)
  {
    var m: nat := if n < 0 then -n else n;
    var digits := Numerals.Render(m, 10);
    Numerals.AllDigitsAt(digits, 10);
    assert DecText(n) == (if n < 0 then "-" else "") + digits;
  }

  /** The low 12 bits of field `j`'s hex value. */
  function MaskedValue(c: seq<Token>, j: nat): nat
    requires |c| == CriticalTokens && j < FieldCount && IntBase16(FieldText(c, j)).Some?
  {
    IntBase16(FieldText(c, j)).value % 4096
  }

  /** A masked analog field renders as the tab-free decimal text of its low
      12 bits. */
  lemma AnalogPart(c: seq<Token>, j: nat)
    requires WellFormed(c) && j < FieldCount && Table[j].kind == Mask12 && Results(c)[j].Some?
    ensures IntBase16(FieldText(c, j)).Some?
    ensures Written(Results(c)[j].value) == DecText(MaskedValue(c, j))
    ensures '\t' !in Written(Results(c)[j].value)
  {
    assert Results(c)[j] == DecodeAt(c, j);
    MaskedFieldLine(c, j);
    assert !Numerals.IsDigit('\t', 10);
    DecTextOnly(Results(c)[j].value.n, '\t');
  }

  /** The combined analog line ends in a newline and splits on tabs into four
      decimal values: the masked ana_0, ana_1, ana_2 and ana_3, in that order
      (lines 98-106). */
  lemma AnalogLineFields(c: seq<Token>)
    requires WellFormed(c) && AnalogParses(Results(c))
    ensures AnalogFieldsParse(c)
    ensures var line := AnalogLine(Results(c));
            && line[|line| - 1] == '\n'
            && Split(line[..|line| - 1], "\t")
               == [DecText(MaskedValue(c, Ana0)), DecText(MaskedValue(c, Ana1)),
                   DecText(MaskedValue(c, Ana2)), DecText(MaskedValue(c, Ana3))]
  {
    var rs := Results(c);
    var ts := AnalogTexts(rs);
    AnalogFields();
    AnalogPart(c, Ana0);
    AnalogPart(c, Ana1);
    AnalogPart(c, Ana2);
    AnalogPart(c, Ana3);
    assert ts == [DecText(MaskedValue(c, Ana0)), DecText(MaskedValue(c, Ana1)),
                  DecText(MaskedValue(c, Ana2)), DecText(MaskedValue(c, Ana3))];
    NoneHolds(ts[0], ts[1], ts[2], ts[3], '\t');
  }

  /** A character in none of four texts is in none of their list's entries. */
  lemma NoneHolds(t0: string, t1: string, t2: string, t3: string, ch: char)
    requires ch !in t0 && ch !in t1 && ch !in t2 && ch !in t3
    ensures forall k :: 0 <= k < 4 ==> ch !in [t0, t1, t2, t3][k]
  {
  }

  /** The hex text of every analog field parses. */
  predicate AnalogFieldsParse(c: seq<Token>)
    requires |c| == CriticalTokens
  {
    && IntBase16(FieldText(c, Ana0)).Some? && IntBase16(FieldText(c, Ana1)).Some?
    && IntBase16(FieldText(c, Ana2)).Some? && IntBase16(FieldText(c, Ana3)).Some?
  }

  /** Four tab-free texts joined by tabs split back into the four. */
  lemma SplitOnTabs(t0: string, t1: string, t2: string, t3: string)
    ensures '\t' !in t0 && '\t' !in t1 && '\t' !in t2 && '\t' !in t3 ==>
              Split(t0 + "\t" + t1 + "\t" + t2 + "\t" + t3, "\t") == [t0, t1, t2, t3]
  {
    if '\t' !in t0 && '\t' !in t1 && '\t' !in t2 && '\t' !in t3 {
      TabFreeSplit(t0, t1, t2, t3);
    }
  }

  lemma TabFreeSplit(t0: string, t1: string, t2: string, t3: string)
    requires '\t' !in t0 && '\t' !in t1 && '\t' !in t2 && '\t' !in t3
    ensures Split(t0 + "\t" + t1 + "\t" + t2 + "\t" + t3, "\t") == [t0, t1, t2, t3]
  {
    var tab := '\t';
    var r2 := t2 + [tab] + t3;
    var r1 := t1 + [tab] + r2;
    var r0 := t0 + [tab] + r1;
    assert t0 + "\t" + t1 + "\t" + t2 + "\t" + t3 == r0 by {
      assert "\t" == [tab];
      assert t0 + [tab] + t1 + [tab] + t2 + [tab] + t3 == r0;
    }
    var p3 := Split(t3, [tab]);
    assert p3 == [t3] by { SplitWithoutChar(t3, tab); }
    var p2 := Split(r2, [tab]);
    assert p2 == [t2, t3] by { SplitAtChar(t2, t3, tab); }
    var p1 := Split(r1, [tab]);
    assert p1 == [t1, t2, t3] by { SplitAtChar(t1, r2, tab); }
    assert Split(r0, [tab]) == [t0, t1, t2, t3] by { SplitAtChar(t0, r1, tab); }
  }
}
