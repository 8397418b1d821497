/** Whole dependency traces: ASCII to protobuf and back. Serialisation of one message is a parameter. */
module TraceFiles {
  import opened Bits
  import opened Options
  import opened Text
  import opened Protolib
  import opened InstDepTrace

  /** "gem5" in ASCII. */
  const MAGIC: seq<byte> := [0x67, 0x65, 0x6d, 0x35]

  function FirstNewline(s: string): (n: nat)
    ensures n <= |s| && (forall i | 0 <= i < n :: s[i] != '\n') && (n < |s| ==> s[n] == '\n')
  {
    if s == [] || s[0] == '\n' then 0 else 1 + FirstNewline(s[1..])
  }

  /** The lines of a text file, each with its newline. */
  function TextLines(s: string): seq<string> {
    if s == [] then [] else
    var n := FirstNewline(s);
    if n == |s| then [s] else [s[..n + 1]] + TextLines(s[n + 1..])
  }

  function Print(records: seq<Record>): string {
    if records == [] then "" else Line(records[0]) + Print(records[1..])
  }

  /** The records of all lines, or None if one of them is rejected. */
  function Collect(lines: seq<string>, parse: string -> Result): Option<seq<Record>> {
    if lines == [] then Some([]) else
    var before, last := Collect(lines[..|lines| - 1], parse), parse(lines[|lines| - 1]);
    if before.None? || last.Err? then None else Some(before.value + [last.record])
  }

  function ParseAll(lines: seq<string>): Option<seq<Record>> {
    Collect(lines, Parse)
  }

  function Serialise(records: seq<Record>, ser: Record -> seq<byte>): seq<seq<byte>> {
    if records == [] then [] else Serialise(records[..|records| - 1], ser) + [ser(records[|records| - 1])]
  }

  function Deserialise(messages: seq<seq<byte>>, des: seq<byte> -> Record): seq<Record> {
    if messages == [] then [] else [des(messages[0])] + Deserialise(messages[1..], des)
  }

  /** Encoding script: what it writes for a text, if it accepts every line. */
  function Encode(text: string, header: seq<byte>, ser: Record -> seq<byte>): Option<seq<byte>> {
    var records := ParseAll(TextLines(text));
    if records.None? then None else Some(MAGIC + Frame(header) + Frames(Serialise(records.value, ser)))
  }

  /** Decoding script: the text it prints, if the file begins with the magic number. */
  function Decode(bytes: seq<byte>, des: seq<byte> -> Record): Option<string> {
    if |bytes| < 4 || bytes[..4] != MAGIC then None
    else Some(Print(Deserialise(ReadAll(ReadMessage(bytes[4..]).1), des)))
  }

  lemma {:induction false} FramesAppend(payloads: seq<seq<byte>>, p: seq<byte>)
    ensures Frames(payloads + [p]) == Frames(payloads) + Frame(p)
  {
    if payloads == [] {
      assert ([] + [p])[1..] == [];
    } else {
      assert (payloads + [p])[1..] == payloads[1..] + [p];
      FramesAppend(payloads[1..], p);
    }
  }

  lemma {:induction false} CollectFails(lines: seq<string>, parse: string -> Result, k: nat)
    requires k < |lines| && parse(lines[k]).Err?
    ensures Collect(lines, parse).None?
  {
    if k < |lines| - 1 {
      CollectFails(lines[..|lines| - 1], parse, k);
    }
  }

  lemma CollectNext(lines: seq<string>, parse: string -> Result, k: nat)
    requires k < |lines|
    ensures var before, next := Collect(lines[..k], parse), parse(lines[k]);
            Collect(lines[..k + 1], parse) ==
              if before.None? || next.Err? then None else Some(before.value + [next.record])
  {
    assert lines[..k + 1][..k] == lines[..k];
  }

  lemma SerialiseNext(start: seq<byte>, records: seq<Record>, r: Record, ser: Record -> seq<byte>)
    ensures start + Frames(Serialise(records + [r], ser)) == (start + Frames(Serialise(records, ser))) + Frame(ser(r))
  {
    assert (records + [r])[..|records|] == records;
    FramesAppend(Serialise(records, ser), ser(r));
  }

  /** Every line is parsed on its own. */
  lemma {:induction false} CollectAt(lines: seq<string>, parse: string -> Result)
    requires Collect(lines, parse).Some?
    ensures |Collect(lines, parse).value| == |lines|
    ensures forall i | 0 <= i < |lines| :: parse(lines[i]) == Ok(Collect(lines, parse).value[i])
  {
    if lines != [] {
      CollectAt(lines[..|lines| - 1], parse);
    }
  }

  /** The file holds the magic number, the header and the record of every line, in order. */
  ghost predicate EncodedAs(bytes: seq<byte>, header: seq<byte>, lines: seq<string>, ser: Record -> seq<byte>)
    requires forall line | line in lines :: Parse(line).Ok?
  {
    exists messages: seq<seq<byte>> ::
      && bytes == MAGIC + Frame(header) + Frames(messages) && |messages| == |lines|
      && forall i | 0 <= i < |lines| :: messages[i] == ser(Parse(lines[i]).record)
  }

  lemma {:induction false} CollectSucceeds(lines: seq<string>, parse: string -> Result)
    ensures Collect(lines, parse).Some? <==> forall i | 0 <= i < |lines| :: parse(lines[i]).Ok?
  {
    if k :| 0 <= k < |lines| && parse(lines[k]).Err? {
      CollectFails(lines, parse, k);
    } else if lines != [] {
      CollectSucceeds(lines[..|lines| - 1], parse);
    }
  }

  lemma EncodeMeaning(text: string, header: seq<byte>, ser: Record -> seq<byte>)
    ensures var out, lines := Encode(text, header, ser), TextLines(text);
            && (out.Some? <==> forall line | line in lines :: Parse(line).Ok?)
            && (out.Some? ==> EncodedAs(out.value, header, lines, ser))
  {
    var lines := TextLines(text);
    CollectSucceeds(lines, Parse);
    if Collect(lines, Parse).Some? {
      CollectAt(lines, Parse);
      MessagesOf(lines, header, ser, Collect(lines, Parse).value);
    }
  }

  lemma MessagesOf(lines: seq<string>, header: seq<byte>, ser: Record -> seq<byte>, records: seq<Record>)
    requires |records| == |lines| && forall i | 0 <= i < |lines| :: Parse(lines[i]) == Ok(records[i])
    ensures EncodedAs(MAGIC + Frame(header) + Frames(Serialise(records, ser)), header, lines, ser)
  {
    SerialiseAt(records, ser);
  }

  /** main of encode_inst_dep_trace.py */
  method EncodeTrace(text: string, header: seq<byte>, ser: Record -> seq<byte>) returns (out: Option<seq<byte>>)
    ensures out == Encode(text, header, ser)
    ensures out.Some? <==> forall line | line in TextLines(text) :: Parse(line).Ok?
    ensures out.Some? ==> EncodedAs(out.value, header, TextLines(text), ser)
  {
    var bytes := EncodeMessage(MAGIC, header);
    ghost var start, records := bytes, [];
    assert start + Frames(Serialise(records, ser)) == start;
    var lines := TextLines(text);
    var k := 0;
    while k < |lines|
      invariant 0 <= k <= |lines|
      invariant ParseAll(lines[..k]) == Some(records)
      invariant bytes == start + Frames(Serialise(records, ser))
    {
      var r := ParseLine(lines[k]);
      if r.Err? {
        CollectFails(lines, Parse, k);
        EncodeMeaning(text, header, ser);
        return None;
      }
      CollectNext(lines, Parse, k);
      SerialiseNext(start, records, r.record, ser);
      records := records + [r.record];
      bytes := EncodeMessage(bytes, ser(r.record));
      k := k + 1;
    }
    assert lines[..|lines|] == lines;
    EncodeMeaning(text, header, ser);
    return Some(bytes);
  }

  /** main of decode_inst_dep_trace.py */
  method DecodeTrace(bytes: seq<byte>, des: seq<byte> -> Record) returns (text: Option<string>)
    ensures text == Decode(bytes, des)
    ensures text.None? <==> !(MAGIC <= bytes)
  {
    var f := new InFile(bytes);
    var magic := f.Read(4);
    if magic != MAGIC {
      return None;
    }
    assert f.Rest() == bytes[4..];
    var header := DecodeMessage(f);
    ghost var bs := f.Rest();
    var out := "";
    while true
      invariant f.Valid()
      invariant out + Print(Deserialise(ReadAll(f.Rest()), des)) == Print(Deserialise(ReadAll(bs), des))
      decreases |f.Rest()|
    {
      PrintStep(out, f.Rest(), des);
      var message := DecodeMessage(f);
      if message.None? {
        break;
      }
      var line := PrintRecord(des(message.value));
      out := out + line;
    }
    return Some(out);
  }

  lemma PrintStep(out: string, bs: seq<byte>, des: seq<byte> -> Record)
    ensures var (message, rest) := ReadMessage(bs);
            out + Print(Deserialise(ReadAll(bs), des))
              == if message.None? then out else
                   (out + Line(des(message.value))) + Print(Deserialise(ReadAll(rest), des))
  {
    var (message, rest) := ReadMessage(bs);
    ReadAllStep(bs);
    if message.Some? {
      PrintFirst(out, message.value, ReadAll(rest), des);
    }
  }

  lemma PrintFirst(out: string, message: seq<byte>, rest: seq<seq<byte>>, des: seq<byte> -> Record)
    ensures out + Print(Deserialise([message] + rest, des)) ==
              (out + Line(des(message))) + Print(Deserialise(rest, des))
  {
    DeserialiseCons(message, rest, des);
    PrintCons(des(message), Deserialise(rest, des));
  }

  lemma DeserialiseCons(message: seq<byte>, rest: seq<seq<byte>>, des: seq<byte> -> Record)
    ensures Deserialise([message] + rest, des) == [des(message)] + Deserialise(rest, des)
  {
    assert ([message] + rest)[1..] == rest;
  }

  lemma PrintCons(r: Record, rest: seq<Record>)
    ensures Print([r] + rest) == Line(r) + Print(rest)
  {
    assert ([r] + rest)[1..] == rest;
  }

  // ---- Lines of a text ----

  function Concat(lines: seq<string>): string {
    if lines == [] then "" else lines[0] + Concat(lines[1..])
  }

  lemma {:induction false} TextLinesStep(s: string)
    requires FirstNewline(s) < |s|
    ensures var n := FirstNewline(s); TextLines(s) == [s[..n + 1]] + TextLines(s[n + 1..])
  {
  }

  lemma ConcatCons(line: string, rest: seq<string>)
    ensures Concat([line] + rest) == line + Concat(rest)
  {
    assert ([line] + rest)[1..] == rest;
  }

  lemma {:induction false} LinesConcat(s: string)
    ensures Concat(TextLines(s)) == s
  {
    var n := FirstNewline(s);
    if n < |s| {
      LinesConcat(s[n + 1..]);
      TextLinesStep(s);
      ConcatCons(s[..n + 1], TextLines(s[n + 1..]));
      assert s == s[..n + 1] + s[n + 1..];
    } else if s != [] {
      assert [s][1..] == [] && s + "" == s;
    }
  }

  /** Not empty, and without a newline except at the end. */
  predicate IsLine(line: string) {
    line != "" && '\n' !in line[..|line| - 1]
  }

  predicate Complete(line: string) {
    IsLine(line) && line[|line| - 1] == '\n'
  }

  predicate AreLines(lines: seq<string>) {
    && (forall i | 0 <= i < |lines| :: IsLine(lines[i]))
    && (forall i | 0 <= i < |lines| - 1 :: Complete(lines[i]))
  }

  lemma AreLinesCons(line: string, rest: seq<string>)
    requires Complete(line) && AreLines(rest)
    ensures AreLines([line] + rest)
  {
  }

  lemma {:induction false} LinesShape(s: string)
    ensures AreLines(TextLines(s))
  {
    var n := FirstNewline(s);
    if n < |s| {
      LinesShape(s[n + 1..]);
      TextLinesStep(s);
      AreLinesCons(s[..n + 1], TextLines(s[n + 1..]));
    } else if s != [] {
      assert IsLine(s);
    }
  }

  /** The lines make up the text; each ends with its only newline, which just the last one may lack. */
  lemma LinesOfText(s: string)
    ensures Concat(TextLines(s)) == s && AreLines(TextLines(s))
  {
    LinesConcat(s);
    LinesShape(s);
  }

  function LongerLast(lines: seq<string>): seq<string>
    requires lines != []
  {
    lines[..|lines| - 1] + [lines[|lines| - 1] + "\n"]
  }

  lemma LongerLastCons(line: string, rest: seq<string>)
    requires rest != []
    ensures LongerLast([line] + rest) == [line] + LongerLast(rest)
  {
  }

  /** A missing newline at the end only shortens the last line. */
  lemma {:induction false} NewlineAdded(s: string)
    requires s != "" && s[|s| - 1] != '\n'
    ensures TextLines(s) != [] && TextLines(s + "\n") == LongerLast(TextLines(s))
  {
    var t, n := s + "\n", FirstNewline(s);
    FirstNewlineAt(t, n);
    TextLinesStep(t);
    if n == |s| {
      assert t[..n + 1] == t && t[n + 1..] == "";
    } else {
      var rest := s[n + 1..];
      assert t[..n + 1] == s[..n + 1] && t[n + 1..] == rest + "\n";
      NewlineAdded(rest);
      TextLinesStep(s);
      LongerLastCons(s[..n + 1], TextLines(rest));
    }
  }

  lemma CollectLast(lines: seq<string>, lines': seq<string>, parse: string -> Result)
    requires |lines| == |lines'| > 0 && lines[..|lines| - 1] == lines'[..|lines| - 1]
    requires parse(lines[|lines| - 1]) == parse(lines'[|lines| - 1])
    ensures Collect(lines, parse) == Collect(lines', parse)
  {
  }

  /** The last line may lack its newline: the file is the same. */
  lemma FinalNewlineOptional(text: string, header: seq<byte>, ser: Record -> seq<byte>)
    requires text != "" && text[|text| - 1] != '\n'
    ensures Encode(text + "\n", header, ser) == Encode(text, header, ser)
  {
    var lines, lines' := TextLines(text), TextLines(text + "\n");
    NewlineAdded(text);
    var n := |lines| - 1;
    BlanksIgnored("", lines[n], "\n");
    assert "" + lines[n] + "\n" == lines'[n];
    CollectLast(lines, lines', Parse);
  }

  // ---- Round trip of whole files ----

  lemma DepTextOneLine(deps: seq<nat>)
    ensures '\n' !in DepText(deps)
  {
    NumeralsPlain(deps, '\n');
    JoinChars([""] + Numerals(deps), ',', '\n');
  }

  lemma FieldsOneLine(r: Record)
    ensures '\n' !in Join(Fields(r), ',')
  {
    forall n: nat ensures '\n' !in Decimal(n) { DecimalChars(n, '\n'); }
    JoinChars(Fields(r), ',', '\n');
  }

  lemma FirstNewlineAt(s: string, k: nat)
    requires k < |s| && s[k] == '\n' && forall i | 0 <= i < k :: s[i] != '\n'
    ensures FirstNewline(s) == k
  {
  }

  /** A printed line ends with its only newline. */
  lemma LineEnds(r: Record)
    ensures Line(r) != "" && Line(r)[|Line(r)| - 1] == '\n'
    ensures forall i | 0 <= i < |Line(r)| - 1 :: Line(r)[i] != '\n'
  {
    FieldsOneLine(r);
    DepTextOneLine(r.robDep);
    DepTextOneLine(r.regDep);
    var parts := [Join(Fields(r), ','), DepText(r.robDep), DepText(r.regDep)];
    JoinChars(parts, ':', '\n');
    var s := Join(parts, ':');
    assert forall i | 0 <= i < |s| :: s[i] != '\n';
  }

  lemma {:induction false} LinesOfPrint(records: seq<Record>)
    ensures |TextLines(Print(records))| == |records|
    ensures forall i | 0 <= i < |records| :: TextLines(Print(records))[i] == Line(records[i])
  {
    if records != [] {
      FirstPrintedLine(records);
      LinesOfPrint(records[1..]);
    }
  }

  lemma FirstPrintedLine(records: seq<Record>)
    requires records != []
    ensures TextLines(Print(records)) == [Line(records[0])] + TextLines(Print(records[1..]))
  {
    LineEnds(records[0]);
    FirstLine(Line(records[0]), Print(records[1..]));
  }

  lemma FirstLine(line: string, rest: string)
    requires line != "" && line[|line| - 1] == '\n' && forall i | 0 <= i < |line| - 1 :: line[i] != '\n'
    ensures TextLines(line + rest) == [line] + TextLines(rest)
  {
    var n, s := |line|, line + rest;
    FirstNewlineAt(s, n - 1);
    assert s[..n] == line && s[n..] == rest;
  }

  function Normalised(records: seq<Record>): seq<Record> {
    if records == [] then [] else Normalised(records[..|records| - 1]) + [Normalise(records[|records| - 1])]
  }

  lemma {:induction false} ParsePrinted(records: seq<Record>, lines: seq<string>)
    requires |lines| == |records| && forall i | 0 <= i < |records| :: lines[i] == Line(records[i])
    requires forall i | 0 <= i < |records| :: WellFormed(records[i])
    ensures ParseAll(lines) == Some(Normalised(records))
  {
    if records != [] {
      var n := |records| - 1;
      ParsePrinted(records[..n], lines[..n]);
      LineRoundTrip(records[n]);
    }
  }

  lemma {:induction false} NormalisedAt(records: seq<Record>)
    ensures |Normalised(records)| == |records|
    ensures forall i | 0 <= i < |records| :: Normalised(records)[i] == Normalise(records[i])
  {
    if records != [] {
      NormalisedAt(records[..|records| - 1]);
    }
  }

  lemma {:induction false} SerialiseAt(records: seq<Record>, ser: Record -> seq<byte>)
    ensures |Serialise(records, ser)| == |records|
    ensures forall i | 0 <= i < |records| :: Serialise(records, ser)[i] == ser(records[i])
  {
    if records != [] {
      SerialiseAt(records[..|records| - 1], ser);
    }
  }

  lemma {:induction false} DeserialiseAt(messages: seq<seq<byte>>, des: seq<byte> -> Record)
    ensures |Deserialise(messages, des)| == |messages|
    ensures forall i | 0 <= i < |messages| :: Deserialise(messages, des)[i] == des(messages[i])
  {
    if messages != [] {
      DeserialiseAt(messages[1..], des);
    }
  }

  lemma {:induction false} PrintNormalised(records: seq<Record>, other: seq<Record>)
    requires |other| == |records| && forall i | 0 <= i < |records| :: other[i] == Normalise(records[i])
    ensures Print(other) == Print(records)
  {
    if records != [] {
      NormalisedPrintsTheSame(records[0]);
      PrintNormalised(records[1..], other[1..]);
    }
  }

  /** The message of r is not empty, fits a 32-bit length and can be read back. */
  ghost predicate LosslessAt(ser: Record -> seq<byte>, des: seq<byte> -> Record, r: Record) {
    des(ser(r)) == r && 0 < |ser(r)| <= MASK32
  }

  lemma SerialisedBack(records: seq<Record>, ser: Record -> seq<byte>, des: seq<byte> -> Record)
    requires forall i | 0 <= i < |records| :: LosslessAt(ser, des, records[i])
    ensures Deserialise(ReadAll(Frames(Serialise(records, ser))), des) == records
  {
    var messages := Serialise(records, ser);
    SerialiseAt(records, ser);
    forall i | 0 <= i < |messages| ensures 0 < |messages[i]| <= MASK32 && des(messages[i]) == records[i] {
      assert LosslessAt(ser, des, records[i]);
    }
    MessagesRoundTrip(messages);
    DeserialiseAt(messages, des);
  }

  /** Encoding the text of a well-formed trace and decoding the result prints the same text again. */
  lemma TraceRoundTrip(records: seq<Record>, header: seq<byte>, ser: Record -> seq<byte>, des: seq<byte> -> Record)
    requires 0 < |header| <= MASK32
    requires forall i | 0 <= i < |records| :: WellFormed(records[i]) && LosslessAt(ser, des, Normalise(records[i]))
    ensures var file := Encode(Print(records), header, ser);
            file.Some? && Decode(file.value, des) == Some(Print(records))
  {
    EncodePrinted(records, header, ser);
    var norm := Normalised(records);
    NormalisedAt(records);
    DecodeFrames(norm, header, ser, des);
    PrintNormalised(records, norm);
  }

  lemma EncodePrinted(records: seq<Record>, header: seq<byte>, ser: Record -> seq<byte>)
    requires forall i | 0 <= i < |records| :: WellFormed(records[i])
    ensures Encode(Print(records), header, ser) ==
              Some(MAGIC + Frame(header) + Frames(Serialise(Normalised(records), ser)))
  {
    LinesOfPrint(records);
    ParsePrinted(records, TextLines(Print(records)));
  }

  lemma DecodeFrames(records: seq<Record>, header: seq<byte>, ser: Record -> seq<byte>, des: seq<byte> -> Record)
    requires 0 < |header| <= MASK32
    requires forall i | 0 <= i < |records| :: LosslessAt(ser, des, records[i])
    ensures Decode(MAGIC + Frame(header) + Frames(Serialise(records, ser)), des) == Some(Print(records))
  {
    HeaderSkipped(header, Frames(Serialise(records, ser)), des);
    SerialisedBack(records, ser, des);
  }

  lemma HeaderSkipped(header: seq<byte>, body: seq<byte>, des: seq<byte> -> Record)
    requires 0 < |header| <= MASK32
    ensures Decode(MAGIC + Frame(header) + body, des) == Some(Print(Deserialise(ReadAll(body), des)))
  {
    var file := MAGIC + Frame(header) + body;
    assert file[..4] == MAGIC && file[4..] == Frame(header) + body;
    FrameRead(header, body);
  }
}
