/** `parse_chunked_records`: a line parser that does not care where the stream is cut. */
module ChunkedRecords {
  import opened Wrappers

  datatype Record = Record(key: string, value: string)

  datatype ParseError = MalformedRecord | EmptyKey | UnterminatedRecord

  // ----- Specification -----

  function Count(s: string, c: char): nat {
    if s == [] then 0 else (if s[0] == c then 1 else 0) + Count(s[1..], c)
  }

  /** Where `c` first occurs. */
  function Find(s: string, c: char): (k: nat)
    requires c in s
    ensures k < |s| && s[k] == c && forall i :: 0 <= i < k ==> s[i] != c
  {
    if s[0] == c then 0 else Find(s[1..], c) + 1
  }

  /** A non-blank line as a record. */
  function ParseLine(line: string): Result<Record, ParseError> {
    if Count(line, '=') != 1 then
      Err(MalformedRecord)
    else
      CountPresent(line, '=');
      var k := Find(line, '=');
      if k == 0 then Err(EmptyKey) else Ok(Record(line[..k], line[k + 1..]))
  }

  /** A line with other than one '=' is malformed, one that starts with its only '=' has no key, and the parts
      before and after it are key and value. */
  lemma LineExactly(line: string, key: string, value: string)
    ensures multiset(line)['='] != 1 ==> ParseLine(line) == Err(MalformedRecord)
    ensures multiset(line)['='] == 1 && line[0] == '=' ==> ParseLine(line) == Err(EmptyKey)
    ensures key != "" && '=' !in key && '=' !in value ==> ParseLine(key + "=" + value) == Ok(Record(key, value))
  {
    CountIsMultiplicity(line, '=');
    CountPresent(line, '=');
    if key != "" && '=' !in key && '=' !in value {
      OneSign(key, value);
    }
  }

  lemma {:induction false} CountIsMultiplicity(s: string, c: char)
    ensures Count(s, c) == multiset(s)[c]
  {
    if s != [] {
      CountIsMultiplicity(s[1..], c);
      assert s == [s[0]] + s[1..];
    }
  }

  /** A line of a key, the sign and a value. */
  lemma OneSign(key: string, value: string)
    requires '=' !in key && '=' !in value
    ensures
      var line := key + "=" + value;
      '=' in line && Count(line, '=') == 1 && Find(line, '=') == |key| && line[..|key|] == key &&
      line[|key| + 1..] == value
  {
    var line := key + "=" + value;
    CountPresent(key, '=');
    CountPresent(value, '=');
    CountSplit(key + "=", value, '=');
    CountSplit(key, "=", '=');
    assert Count("=", '=') == 1;
    assert line[|key|] == '=' && forall i :: 0 <= i < |key| ==> line[i] == key[i];
  }

  lemma {:induction false} CountPresent(s: string, c: char)
    ensures Count(s, c) > 0 <==> c in s
  {
    if s != [] {
      CountPresent(s[1..], c);
      assert s == [s[0]] + s[1..];
    }
  }

  /** What a whole text means, line by line; `records` are those of the lines before it. */
  ghost function ParseText(records: seq<Record>, text: string): Result<seq<Record>, ParseError>
    decreases |text|
  {
    if '\n' in text then
      var k := Find(text, '\n');
      if k == 0 then
        ParseText(records, text[1..])
      else
        match ParseLine(text[..k])
        case Err(e) => Err(e)
        case Ok(record) => ParseText(records + [record], text[k + 1..])
    else if text == [] then
      Ok(records)
    else
      Err(UnterminatedRecord)
  }

  ghost function Concat(chunks: seq<string>): string {
    if chunks == [] then [] else chunks[0] + Concat(chunks[1..])
  }

  /** The text of some lines, each ended by a newline. */
  ghost function Unlines(lines: seq<string>): string {
    if lines == [] then [] else lines[0] + "\n" + Unlines(lines[1..])
  }

  /** How a record is written on a line. */
  ghost function Print(record: Record): string {
    record.key + "=" + record.value
  }

  ghost predicate Clean(s: string) {
    '=' !in s && '\n' !in s
  }

  /** Records that can be written on a line of their own. */
  ghost predicate Printable(record: Record) {
    record.key != [] && Clean(record.key) && Clean(record.value)
  }

  /** The lines that spell some records, in order, among blank lines. */
  ghost predicate Spells(lines: seq<string>, records: seq<Record>) {
    if lines == [] then records == []
    else if lines[0] == [] then Spells(lines[1..], records)
    else records != [] && Printable(records[0]) && lines[0] == Print(records[0]) && Spells(lines[1..], records[1..])
  }

  // ----- Program -----

  /** The outcome is that of the concatenation: where the chunks are cut does not matter, neither for
      the records nor for which error is raised. */
  method ParseChunkedRecords(chunks: seq<string>) returns (r: Result<seq<Record>, ParseError>)
    ensures r == ParseText([], Concat(chunks))
  {
    var buffer := "";
    var output := [];
    Ahead(buffer, chunks, 0);
    for i := 0 to |chunks|
      invariant ParseText(output, buffer + Concat(chunks[i..])) == ParseText([], Concat(chunks))
      invariant '\n' !in buffer
    {
      ghost var rest := Concat(chunks[i + 1..]);
      Ahead(buffer, chunks, i);
      var failure;
      output, buffer, failure := TakeLines(output, buffer + chunks[i], rest);
      if failure.Some? {
        return Err(failure.value);
      }
    }
    Ahead(buffer, chunks, |chunks|);
    if buffer != "" {
      return Err(UnterminatedRecord);
    }
    return Ok(output);
  }

  /** What is still to be read is the buffer, the next chunk and the rest. */
  lemma Ahead(buffer: string, chunks: seq<string>, i: nat)
    requires i <= |chunks|
    ensures i < |chunks| ==> buffer + Concat(chunks[i..]) == (buffer + chunks[i]) + Concat(chunks[i + 1..])
    ensures i == |chunks| ==> buffer + Concat(chunks[i..]) == buffer
    ensures i == 0 && buffer == "" ==> buffer + Concat(chunks[i..]) == Concat(chunks)
  {
    assert chunks[0..] == chunks;
    if i < |chunks| {
      assert chunks[i..][0] == chunks[i] && chunks[i..][1..] == chunks[i + 1..];
    }
  }

  /** The inner loop: consume the complete lines of the buffer, whatever follows it. */
  method TakeLines(output0: seq<Record>, buffer0: string, ghost rest: string)
    returns (output: seq<Record>, buffer: string, failure: Option<ParseError>)
    ensures failure.None? ==> '\n' !in buffer && ParseText(output, buffer + rest) == ParseText(output0, buffer0 + rest)
    ensures failure.Some? ==> ParseText(output0, buffer0 + rest) == Err(failure.value)
  {
    output, buffer := output0, buffer0;
    while '\n' in buffer
      invariant ParseText(output, buffer + rest) == ParseText(output0, buffer0 + rest)
      decreases |buffer|
    {
      var k := Find(buffer, '\n');
      var line := buffer[..k];
      FirstLine(buffer, rest);
      buffer := buffer[k + 1..];
      if line == "" {
        continue;
      }
      var parsed := ParseLine(line);
      if parsed.Err? {
        return output, buffer, Some(parsed.error);
      }
      output := output + [parsed.value];
    }
    failure := None;
  }

  // ----- Proofs -----

  /** The first line of a text that has one does not change when more text follows. */
  lemma FirstLine(buffer: string, rest: string)
    requires '\n' in buffer
    ensures '\n' in buffer + rest
    ensures var k := Find(buffer, '\n');
      && Find(buffer + rest, '\n') == k
      && (buffer + rest)[..k] == buffer[..k]
      && (buffer + rest)[k + 1..] == buffer[k + 1..] + rest
      && (k == 0 ==> (buffer + rest)[1..] == buffer[1..] + rest)
  {
    var k := Find(buffer, '\n');
    assert (buffer + rest)[k] == '\n';
    assert Find(buffer + rest, '\n') == k;
    assert (buffer + rest)[..k] == buffer[..k];
  }

  lemma {:induction false} CountSplit(a: string, b: string, c: char)
    ensures Count(a + b, c) == Count(a, c) + Count(b, c)
  {
    if a == [] {
      assert a + b == b;
    } else {
      assert (a + b)[1..] == a[1..] + b;
      CountSplit(a[1..], b, c);
    }
  }

  /** A printed record reads back. */
  lemma PrintReadsBack(record: Record)
    requires Printable(record)
    ensures ParseLine(Print(record)) == Ok(record)
    ensures '\n' !in Print(record)
  {
    OneSign(record.key, record.value);
    CountPresent(Print(record), '=');
  }

  /** A line that reads as a record is that record printed. */
  lemma ReadPrintsBack(line: string)
    requires ParseLine(line).Ok? && '\n' !in line
    ensures Printable(ParseLine(line).value) && Print(ParseLine(line).value) == line
  {
    CountPresent(line, '=');
    var k := Find(line, '=');
    var key, value := line[..k], line[k + 1..];
    assert line == key + "=" + value;
    CountSplit(key + "=", value, '=');
    CountSplit(key, "=", '=');
    assert Count("=", '=') == 1;
    CountPresent(key, '=');
    CountPresent(value, '=');
  }

  /** Any well-formed text parses to the records it spells. */
  lemma {:induction false} SpelledTextParses(before: seq<Record>, lines: seq<string>, records: seq<Record>)
    requires Spells(lines, records)
    ensures ParseText(before, Unlines(lines)) == Ok(before + records)
    decreases |lines|
  {
    if lines == [] {
      assert before + records == before;
    } else {
      var rest := Unlines(lines[1..]);
      if lines[0] != [] {
        PrintReadsBack(records[0]);
      }
      NewlineEndsLine(lines[0], rest);
      if lines[0] == [] {
        SpelledTextParses(before, lines[1..], records);
      } else {
        SpelledTextParses(before + [records[0]], lines[1..], records[1..]);
        assert before + records == (before + [records[0]]) + records[1..];
      }
    }
  }

  lemma NewlineEndsLine(line: string, rest: string)
    requires '\n' !in line
    ensures var text := line + "\n" + rest;
      '\n' in text && Find(text, '\n') == |line| && text[..|line|] == line && text[|line| + 1..] == rest
  {
    var text := line + "\n" + rest;
    assert text[|line|] == '\n';
    assert forall i :: 0 <= i < |line| ==> text[i] == line[i];
  }

  /** A blank line means nothing. */
  lemma BlankLineIsSkipped(before: seq<Record>, text: string)
    ensures ParseText(before, "\n" + text) == ParseText(before, text)
  {
    NewlineEndsLine("", text);
    assert "" + "\n" + text == "\n" + text;
  }

  /** Printing records, cutting the text anywhere and parsing the pieces gives the records back. */
  lemma RoundTrip(records: seq<Record>, chunks: seq<string>)
    requires forall i :: 0 <= i < |records| ==> Printable(records[i])
    requires Concat(chunks) == Unlines(seq(|records|, i requires 0 <= i < |records| => Print(records[i])))
    ensures ParseText([], Concat(chunks)) == Ok(records)
  {
    var lines := seq(|records|, i requires 0 <= i < |records| => Print(records[i]));
    PrintedLinesSpell(records, lines);
    SpelledTextParses([], lines, records);
    assert [] + records == records;
  }

  lemma {:induction false} PrintedLinesSpell(records: seq<Record>, lines: seq<string>)
    requires |lines| == |records|
    requires forall i :: 0 <= i < |records| ==> Printable(records[i]) && lines[i] == Print(records[i])
    ensures Spells(lines, records)
  {
    if records != [] {
      PrintedLinesSpell(records[1..], lines[1..]);
    }
  }

  /** Conversely, a text that parses is made of whole lines spelling the records it yields, and of
      blank lines. */
  lemma {:induction false} ParsedTextSpells(before: seq<Record>, text: string)
    returns (lines: seq<string>, records: seq<Record>)
    requires ParseText(before, text).Ok?
    ensures text == Unlines(lines) && Spells(lines, records)
    ensures ParseText(before, text) == Ok(before + records)
    decreases |text|
  {
    if '\n' in text {
      var k := Find(text, '\n');
      var line, rest := text[..k], text[k + 1..];
      LineComesFirst(before, text);
      if k == 0 {
        lines, records := ParsedTextSpells(before, rest);
      } else {
        ReadPrintsBack(line);
        var record := ParseLine(line).value;
        lines, records := ParsedTextSpells(before + [record], rest);
        MoveRecord(before, record, records);
        records := [record] + records;
      }
      lines := [line] + lines;
    } else {
      lines, records := [], [];
      assert before + [] == before;
    }
  }

  /** What the first line of a text that parses is, and what is left to parse behind it. */
  lemma LineComesFirst(before: seq<Record>, text: string)
    requires '\n' in text && ParseText(before, text).Ok?
    ensures
      var k := Find(text, '\n');
      var line, rest := text[..k], text[k + 1..];
      && text == line + "\n" + rest && '\n' !in line
      && (k == 0 ==> ParseText(before, text) == ParseText(before, rest))
      && (k > 0 ==> ParseLine(line).Ok?)
      && (k > 0 ==> ParseText(before, text) == ParseText(before + [ParseLine(line).value], rest))
  {
  }

  lemma MoveRecord(before: seq<Record>, record: Record, records: seq<Record>)
    ensures (before + [record]) + records == before + ([record] + records)
    ensures ([record] + records)[0] == record && ([record] + records)[1..] == records
  {
  }

  /** A last line without its newline is an error whatever comes before it, unless an earlier line
      already is. */
  lemma {:induction false} UnterminatedFails(before: seq<Record>, lines: seq<string>, records: seq<Record>,
                                             tail: string)
    requires Spells(lines, records) && tail != [] && '\n' !in tail
    ensures ParseText(before, Unlines(lines) + tail) == Err(UnterminatedRecord)
    decreases |lines|
  {
    if lines == [] {
      assert Unlines(lines) + tail == tail;
    } else {
      if lines[0] != [] {
        PrintReadsBack(records[0]);
      }
      var rest := Unlines(lines[1..]) + tail;
      assert Unlines(lines) + tail == lines[0] + "\n" + rest;
      NewlineEndsLine(lines[0], rest);
      if lines[0] == [] {
        UnterminatedFails(before, lines[1..], records, tail);
      } else {
        UnterminatedFails(before + [records[0]], lines[1..], records[1..], tail);
      }
    }
  }

  /** The first line that is not a record decides the error, whatever follows it. */
  lemma {:induction false} FirstBadLineFails(before: seq<Record>, lines: seq<string>, records: seq<Record>,
                                             bad: string, rest: string)
    requires Spells(lines, records)
    requires bad != [] && '\n' !in bad && (multiset(bad)['='] != 1 || bad[0] == '=')
    ensures ParseText(before, Unlines(lines) + bad + "\n" + rest) ==
      Err(if multiset(bad)['='] != 1 then MalformedRecord else EmptyKey)
    decreases |lines|
  {
    LineExactly(bad, "", "");
    var text := Unlines(lines) + bad + "\n" + rest;
    if lines == [] {
      assert text == bad + "\n" + rest;
      NewlineEndsLine(bad, rest);
    } else {
      if lines[0] != [] {
        PrintReadsBack(records[0]);
      }
      var more := Unlines(lines[1..]) + bad + "\n" + rest;
      assert text == lines[0] + "\n" + more;
      NewlineEndsLine(lines[0], more);
      if lines[0] == [] {
        FirstBadLineFails(before, lines[1..], records, bad, rest);
      } else {
        FirstBadLineFails(before + [records[0]], lines[1..], records[1..], bad, rest);
      }
    }
  }
}
