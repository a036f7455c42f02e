/** The front-matter parser (generator/parser.py). A document is the
    sequence of its lines, each with its trailing "\n" as Python's file
    iteration yields it; an index into that sequence plays the part of the
    file iterator that the two scanning loops share. */
module Parser {
  import opened Types
  import opened PyStr

  /** A line opens or closes the header when it BEGINS with this token. */
  const Delimiter: string := "---"

  /** The detail carried by InvalidMetadataSyntax. */
  const SyntaxMessage: string := "missing ':' or too many ':'"

  /** `line.startswith("---")` */
  predicate IsDelimiter(line: string) {
    StartsWith(line, Delimiter)
  }

  /** A line opens or closes the header exactly when it begins with three
      dashes, whatever follows them on the line. */
  lemma IsDelimiterIff(line: string)
    ensures IsDelimiter(line) <==> |line| >= 3 && line[0] == '-' && line[1] == '-' && line[2] == '-'
  {
    if |line| >= 3 && line[0] == '-' && line[1] == '-' && line[2] == '-' {
      assert line[..3] == Delimiter;
    }
  }

  // ----- specification -----

  /** The first delimiter line at or after `from`, or |lines| if none. */
  function FindDelimiter(lines: seq<string>, from: nat): (i: nat)
    requires from <= |lines|
    ensures from <= i <= |lines|
    ensures forall k :: from <= k < i ==> !IsDelimiter(lines[k])
    ensures i < |lines| ==> IsDelimiter(lines[i])
    decreases |lines| - from
  {
    if from == |lines| || IsDelimiter(lines[from]) then from
    else FindDelimiter(lines, from + 1)
  }

  /** Each line with its trailing newlines removed. */
  function StripNewlines(lines: seq<string>): (r: seq<string>)
    ensures |r| == |lines|
    ensures forall k :: 0 <= k < |lines| ==> r[k] == RStripNewlines(lines[k])
  {
    seq(|lines|, k requires 0 <= k < |lines| => RStripNewlines(lines[k]))
  }

  /** One more line keeps the header lines before it and adds its own. */
  lemma StripNewlinesSnoc(lines: seq<string>, from: nat, to: nat)
    requires from <= to < |lines|
    ensures StripNewlines(lines[from..to + 1]) == StripNewlines(lines[from..to]) + [RStripNewlines(lines[to])]
  {
    var a, b := StripNewlines(lines[from..to + 1]), StripNewlines(lines[from..to]) + [RStripNewlines(lines[to])];
    assert |a| == |b|;
    forall k | 0 <= k < |a| ensures a[k] == b[k] {
      assert lines[from..to + 1][k] == lines[from + k];
    }
  }

  /** What `_partition_file_content` hands back: the lines strictly between
      the first and the second delimiter line (all lines after the first
      when there is no second), and the text after the second. */
  function SplitDocument(lines: seq<string>): Result<Partitioned, ParseError>
  {
    var open := FindDelimiter(lines, 0);
    if open == |lines| then Err(NoMetadata)
    else
      var close := FindDelimiter(lines, open + 1);
      var rest := if close < |lines| then lines[close + 1..] else [];
      Ok(Partitioned(Concat(rest), StripNewlines(lines[open + 1..close])))
  }

  /** One header line as `_parse_metadata` reads it: split on every ':',
      and exactly two pieces are required. */
  function ParseLine(line: string): (r: Result<(string, string), ParseError>)
    ensures r.Ok? <==> CountChar(line, ':') == 1
    ensures r.Err? ==> r.error == InvalidMetadataSyntax(SyntaxMessage)
    ensures r.Ok? ==> ':' !in r.value.0
  {
    var parts := Split(line, ':');
    if |parts| != 2 then Err(InvalidMetadataSyntax(SyntaxMessage))
    else Ok((HeaderKey(line), HeaderValue(line)))
  }

  /** The text before the first ':' of a header line (the key, untrimmed). */
  function HeaderKey(line: string): string {
    Split(line, ':')[0]
  }

  /** The text after the first ':' of a header line, stripped. */
  function HeaderValue(line: string): string
    requires CountChar(line, ':') >= 1
  {
    Strip(Split(line, ':')[1])
  }

  /** What `_parse_metadata` returns: the pairs entered one line after the
      other into one mapping, or the first syntax error. */
  function HeaderMap(header: seq<string>): Result<map<string, string>, ParseError>
  {
    if header == [] then Ok(map[])
    else
      match HeaderMap(header[..|header| - 1])
      case Err(e) => Err(e)
      case Ok(m) =>
        match ParseLine(header[|header| - 1])
        case Err(e) => Err(e)
        case Ok(kv) => Ok(m[kv.0 := kv.1])
  }

  /** What `parse` returns: partition first, then the header. */
  function ParseDocument(lines: seq<string>): Result<ParsedFileData, ParseError>
  {
    match SplitDocument(lines)
    case Err(e) => Err(e)
    case Ok(p) =>
      match HeaderMap(p.metadata)
      case Err(e) => Err(e)
      case Ok(m) => Ok(ParsedFileData(p.content, m))
  }

  // ----- the parser's methods -----

  /** `Parser.parse` */
  method Parse(lines: seq<string>) returns (r: Result<ParsedFileData, ParseError>)
    ensures r == ParseDocument(lines)
  {
    var partitioned := PartitionFileContent(lines);
    if partitioned.Err? {
      return Err(partitioned.error);
    }
    var metadata := ParseMetadata(partitioned.value.metadata);
    if metadata.Err? {
      return Err(metadata.error);
    }
    r := Ok(ParsedFileData(partitioned.value.content, metadata.value));
  }

  /** `Parser._partition_file_content`: one pass over the lines, as the two
      `for` loops over one file iterator make it (the position `pos` is the
      iterator): skip to the opening delimiter, collect the header up to the
      closing one, join the rest. */
  method PartitionFileContent(lines: seq<string>) returns (r: Result<Partitioned, ParseError>)
    ensures r == SplitDocument(lines)
  {
    var pos, metadataExists := SkipToDelimiter(lines);
    if !metadataExists {
      return Err(NoMetadata);
    }
    var metadata;
    metadata, pos := ReadHeader(lines, pos);

    // The rest of the lines would be the content
    var content := Concat(lines[pos..]);
    r := Ok(Partitioned(content, metadata));
    assert r == SplitDocument(lines) by {
      var close := FindDelimiter(lines, FindDelimiter(lines, 0) + 1);
      if close == |lines| {
        assert lines[pos..] == [];
      }
    }
  }

  /** The first loop of `_partition_file_content`: read lines until one
      opens the header; the iterator is left just after it. */
  method SkipToDelimiter(lines: seq<string>) returns (pos: nat, metadataExists: bool)
    ensures metadataExists <==> FindDelimiter(lines, 0) < |lines|
    ensures metadataExists ==> pos == FindDelimiter(lines, 0) + 1
  {
    pos := 0;
    metadataExists := false;
    while pos < |lines|
      invariant 0 <= pos <= |lines|
      invariant FindDelimiter(lines, 0) == FindDelimiter(lines, pos)
    {
      var line := lines[pos];
      pos := pos + 1;
      if IsDelimiter(line) {
        metadataExists := true;
        assert FindDelimiter(lines, pos - 1) == pos - 1;
        return;
      }
      assert FindDelimiter(lines, pos - 1) == FindDelimiter(lines, pos);
    }
    assert FindDelimiter(lines, pos) == |lines|;
  }

  /** The second loop of `_partition_file_content`: collect the lines up to
      the closing delimiter without their newlines; the iterator is left just
      after that delimiter, or at the end without one. */
  method ReadHeader(lines: seq<string>, start: nat) returns (metadata: seq<string>, pos: nat)
    requires start <= |lines|
    ensures var close := FindDelimiter(lines, start);
            && metadata == StripNewlines(lines[start..close])
            && pos == if close < |lines| then close + 1 else |lines|
  {
    metadata := [];
    pos := start;
    assert lines[start..start] == [];
    while pos < |lines|
      invariant start <= pos <= |lines|
      invariant FindDelimiter(lines, start) == FindDelimiter(lines, pos)
      invariant metadata == StripNewlines(lines[start..pos])
    {
      var line := lines[pos];
      pos := pos + 1;
      if IsDelimiter(line) {
        assert FindDelimiter(lines, pos - 1) == pos - 1;
        return;
      }
      assert FindDelimiter(lines, pos - 1) == FindDelimiter(lines, pos);
      StripNewlinesSnoc(lines, start, pos - 1);
      metadata := metadata + [RStripNewlines(line)];
    }
    assert FindDelimiter(lines, pos) == |lines|;
  }

  /** `Parser._parse_metadata`: fills one mapping in place, line by line. */
  method ParseMetadata(metadata: seq<string>) returns (r: Result<map<string, string>, ParseError>)
    ensures r == HeaderMap(metadata)
  {
    var parsedMetadata: map<string, string> := map[];
    for i := 0 to |metadata|
      invariant HeaderMap(metadata[..i]) == Ok(parsedMetadata)
    {
      assert metadata[..i + 1][..i] == metadata[..i];
      var splitData := Split(metadata[i], ':');
      if |splitData| != 2 {
        HeaderMapFails(metadata);
        return Err(InvalidMetadataSyntax(SyntaxMessage));
      }
      parsedMetadata := parsedMetadata[splitData[0] := Strip(splitData[1])];
    }
    assert metadata[..|metadata|] == metadata;
    r := Ok(parsedMetadata);
  }

  // ----- properties -----

  /** A header line is accepted exactly when it holds one ':'; the key is
      the text before it, untouched, and the value the text after it,
      stripped of surrounding whitespace. */
  lemma ParseLineMeaning(line: string)
    ensures ParseLine(line).Ok? <==> CountChar(line, ':') == 1
    ensures ParseLine(line).Err? ==> ParseLine(line).error == InvalidMetadataSyntax(SyntaxMessage)
    ensures CountChar(line, ':') == 1 ==>
              ':' in line &&
              ParseLine(line) == Ok((line[..IndexOf(line, ':')], Strip(line[IndexOf(line, ':') + 1..])))
  {
    if CountChar(line, ':') == 1 {
      ParseLineValue(line);
    }
  }

  /** The key/value half of ParseLineMeaning. */
  lemma ParseLineValue(line: string)
    requires CountChar(line, ':') == 1
    ensures ':' in line
    ensures ParseLine(line) == Ok((line[..IndexOf(line, ':')], Strip(line[IndexOf(line, ':') + 1..])))
  {
    SplitAtOnlySeparator(line, ':');
  }

  /** A non-empty header is its shorter prefix followed by its last line. */
  lemma HeaderMapStep(header: seq<string>)
    requires header != []
    ensures HeaderMap(header) ==
              match HeaderMap(header[..|header| - 1])
              case Err(e) => Err(e)
              case Ok(m) =>
                match ParseLine(header[|header| - 1])
                case Err(e) => Err(e)
                case Ok(kv) => Ok(m[kv.0 := kv.1])
  {
  }

  /** An accepted non-empty header: its shorter prefix is accepted, and its
      last line adds its key and value. */
  lemma HeaderMapStepOk(header: seq<string>)
    requires header != [] && HeaderMap(header).Ok?
    ensures HeaderMap(header[..|header| - 1]).Ok?
    ensures CountChar(header[|header| - 1], ':') == 1
    ensures HeaderMap(header).value
            == HeaderMap(header[..|header| - 1]).value[HeaderKey(header[|header| - 1]) := HeaderValue(header[|header| - 1])]
  {
    HeaderMapStep(header);
  }

  /** Some header line does not hold exactly one ':'. */
  predicate Malformed(header: seq<string>) {
    exists k :: 0 <= k < |header| && CountChar(header[k], ':') != 1
  }

  lemma MalformedStep(header: seq<string>)
    requires header != []
    ensures Malformed(header) <==> Malformed(header[..|header| - 1]) || CountChar(header[|header| - 1], ':') != 1
  {
    var init := header[..|header| - 1];
    if Malformed(init) {
      var k :| 0 <= k < |init| && CountChar(init[k], ':') != 1;
      assert header[k] == init[k];
    }
    if Malformed(header) {
      var k :| 0 <= k < |header| && CountChar(header[k], ':') != 1;
      if k < |init| {
        assert init[k] == header[k];
      }
    }
  }

  /** The header is rejected exactly when one of its lines does not hold
      exactly one ':' (an empty line, a line without ':', a line with two);
      the error is then always InvalidMetadataSyntax. */
  lemma {:induction false} HeaderMapFails(header: seq<string>)
    ensures HeaderMap(header).Err? <==> Malformed(header)
    ensures HeaderMap(header).Err? ==> HeaderMap(header).error == InvalidMetadataSyntax(SyntaxMessage)
  {
    if header != [] {
      var init := header[..|header| - 1];
      var last := header[|header| - 1];
      HeaderMapFails(init);
      HeaderMapStep(header);
      MalformedStep(header);
    }
  }

  /** The keys of the header lines (the text before each line's first ':'). */
  function LineKeys(header: seq<string>): set<string> {
    set k | 0 <= k < |header| :: HeaderKey(header[k])
  }

  /** The keys of the header lines are those of all but the last line,
      and the last line's. */
  lemma LineKeysStep(header: seq<string>)
    requires header != []
    ensures LineKeys(header) == LineKeys(header[..|header| - 1]) + {HeaderKey(header[|header| - 1])}
  {
    var init := header[..|header| - 1];
    var all, before := LineKeys(header), LineKeys(init);
    forall x | x in all ensures x in before + {HeaderKey(header[|header| - 1])} {
      var k :| 0 <= k < |header| && x == HeaderKey(header[k]);
      if k < |init| {
        assert init[k] == header[k];
      }
    }
    forall x | x in before ensures x in all {
      var k :| 0 <= k < |init| && x == HeaderKey(init[k]);
      assert header[k] == init[k];
    }
    assert HeaderKey(header[|header| - 1]) in all;
  }

  /** The keys of the mapping are exactly the keys of the header lines. */
  lemma {:induction false} HeaderMapKeys(header: seq<string>)
    requires HeaderMap(header).Ok?
    ensures HeaderMap(header).value.Keys == LineKeys(header)
  {
    if header != [] {
      var init := header[..|header| - 1];
      var last := header[|header| - 1];
      var m := HeaderMap(init).value;
      assert HeaderMap(header).value.Keys == m.Keys + {HeaderKey(last)} by {
        HeaderMapStepOk(header);
      }
      assert m.Keys == LineKeys(init) by {
        HeaderMapStepOk(header);
        HeaderMapKeys(init);
      }
      LineKeysStep(header);
    }
  }

  /** For a key given on several lines the last one wins: the value stored
      for the key of line k is that line's value when no later line has the
      same key. */
  lemma {:induction false} HeaderMapLastWins(header: seq<string>, k: nat)
    requires HeaderMap(header).Ok?
    requires k < |header|
    requires forall j :: k < j < |header| ==> HeaderKey(header[j]) != HeaderKey(header[k])
    ensures CountChar(header[k], ':') == 1
    ensures HeaderKey(header[k]) in HeaderMap(header).value
    ensures HeaderMap(header).value[HeaderKey(header[k])] == HeaderValue(header[k])
    decreases |header|, 1
  {
    if k == |header| - 1 {
      HeaderMapStepOk(header);
    } else {
      LastWinsEarlier(header, k);
    }
  }

  /** HeaderMapLastWins for a line before the last: the last line has
      another key, so its entry leaves that key alone. */
  lemma {:induction false} LastWinsEarlier(header: seq<string>, k: nat)
    requires HeaderMap(header).Ok?
    requires k < |header| - 1
    requires forall j :: k < j < |header| ==> HeaderKey(header[j]) != HeaderKey(header[k])
    ensures CountChar(header[k], ':') == 1
    ensures HeaderKey(header[k]) in HeaderMap(header).value
    ensures HeaderMap(header).value[HeaderKey(header[k])] == HeaderValue(header[k])
    decreases |header|, 0
  {
    var init := header[..|header| - 1];
    var last := header[|header| - 1];
    var key := HeaderKey(header[k]);
    assert HeaderMap(init).Ok?
           && HeaderMap(header).value == HeaderMap(init).value[HeaderKey(last) := HeaderValue(last)] by {
      HeaderMapStepOk(header);
    }
    assert key in HeaderMap(init).value && HeaderMap(init).value[key] == HeaderValue(header[k])
           && CountChar(header[k], ':') == 1 by {
      assert init[k] == header[k];
      forall j | k < j < |init| ensures HeaderKey(init[j]) != HeaderKey(init[k]) {
        assert init[j] == header[j];
      }
      HeaderMapLastWins(init, k);
    }
    assert HeaderKey(last) != key;
  }

  /** Parsing fails with NoMetadata exactly when no line begins with "---";
      no header line is looked at in that case. */
  lemma NoMetadataIff(lines: seq<string>)
    ensures ParseDocument(lines) == Err(NoMetadata) <==> forall k :: 0 <= k < |lines| ==> !IsDelimiter(lines[k])
  {
    var open := FindDelimiter(lines, 0);
    if open < |lines| {
      var p := SplitDocument(lines).value;
      HeaderMapFails(p.metadata);
    }
  }

  /** Where the delimiters are decides the split: given the first delimiter
      line `open` and the next one `close` (or |lines| when there is none),
      the header is the lines strictly between them without their newlines,
      the body the text of the lines after `close` (empty without a closing
      delimiter), and the lines before `open` are in neither. */
  lemma SplitDocumentLayout(lines: seq<string>, open: nat, close: nat)
    requires open < close <= |lines|
    requires IsDelimiter(lines[open])
    requires forall k :: 0 <= k < open ==> !IsDelimiter(lines[k])
    requires forall k :: open < k < close ==> !IsDelimiter(lines[k])
    requires close < |lines| ==> IsDelimiter(lines[close])
    ensures SplitDocument(lines).Ok?
    ensures SplitDocument(lines).value.metadata == StripNewlines(lines[open + 1..close])
    ensures close == |lines| ==> SplitDocument(lines).value.content == ""
    ensures close < |lines| ==> SplitDocument(lines).value.content == Concat(lines[close + 1..])
  {
    FindDelimiterAt(lines, 0, open);
    FindDelimiterAt(lines, open + 1, close);
  }

  /** The scan from `from` stops at `i` when no line before `i` is a
      delimiter and line `i` is one (or `i` is the end). */
  lemma FindDelimiterAt(lines: seq<string>, from: nat, i: nat)
    requires from <= i <= |lines|
    requires forall k :: from <= k < i ==> !IsDelimiter(lines[k])
    requires i < |lines| ==> IsDelimiter(lines[i])
    ensures FindDelimiter(lines, from) == i
  {
  }

  // ----- documents as an author writes them -----

  /** A header line `key: value` followed by its newline. */
  function HeaderLine(key: string, value: string): string {
    key + ": " + value + "\n"
  }

  /** A header entry that survives parsing unchanged: no ':' anywhere, no
      newline, a key that does not itself look like a delimiter, and a value
      without surrounding whitespace (which `strip` would remove). */
  predicate WellFormedEntry(key: string, value: string) {
    && ':' !in key && ':' !in value
    && '\n' !in key && '\n' !in value
    && !StartsWith(key, Delimiter)
    && (value == [] || (!IsSpace(value[0]) && !IsSpace(value[|value| - 1])))
  }

  /** The entries entered one after another into a mapping (last wins). */
  function EntriesMap(entries: seq<(string, string)>): map<string, string> {
    if entries == [] then map[]
    else EntriesMap(entries[..|entries| - 1])[entries[|entries| - 1].0 := entries[|entries| - 1].1]
  }

  /** A document: lines before the header, an opening delimiter line, one
      header line per entry, a closing delimiter line, the body lines. */
  function Document(prelude: seq<string>, open: string, entries: seq<(string, string)>,
                    close: string, body: seq<string>): seq<string> {
    prelude + [open]
    + seq(|entries|, i requires 0 <= i < |entries| => HeaderLine(entries[i].0, entries[i].1))
    + [close]
    + body
  }

  lemma HeaderLineParses(key: string, value: string)
    requires WellFormedEntry(key, value)
    ensures !IsDelimiter(HeaderLine(key, value))
    ensures RStripNewlines(HeaderLine(key, value)) == key + ": " + value
    ensures ParseLine(key + ": " + value) == Ok((key, value))
  {
    HeaderLineNotDelimiter(key, value);
    var text := key + ": " + value;
    assert HeaderLine(key, value) == text + "\n";
    assert text[|text| - 1] != '\n';
    TrimEndSuffix(text, "\n", IsNewline);
    HeaderTextParses(key, value);
  }

  lemma HeaderLineNotDelimiter(key: string, value: string)
    requires ':' !in key && !StartsWith(key, Delimiter)
    ensures !IsDelimiter(HeaderLine(key, value))
  {
    var line := HeaderLine(key, value);
    if |key| >= 3 {
      assert line[..3] == key[..3];
    } else {
      assert line[|key|] == ':';
    }
  }

  /** The only colon of `key: value` is the one after the key. */
  lemma HeaderTextColon(key: string, value: string)
    requires ':' !in key && ':' !in value
    ensures CountChar(key + ": " + value, ':') == 1
    ensures IndexOf(key + ": " + value, ':') == |key|
  {
    var text := key + ": " + value;
    assert CountChar(text, ':') == 1 by {
      CountCharAppend(key, ": ", ':');
      CountCharAppend(key + ": ", value, ':');
      assert CountChar(": ", ':') == 1;
    }
    assert text[|key|] == ':' && text[..|key|] == key;
    IndexOfAt(text, ':', |key|);
  }

  /** The two sides of the colon of `key: value`. */
  lemma HeaderTextSides(key: string, value: string)
    ensures (key + ": " + value)[..|key|] == key
    ensures (key + ": " + value)[|key| + 1..] == " " + value
  {
  }

  /** `strip` removes the blank after the colon and nothing else. */
  lemma StripBlankValue(value: string)
    requires value == [] || (!IsSpace(value[0]) && !IsSpace(value[|value| - 1]))
    ensures Strip(" " + value) == value
  {
    StripSurrounded(" ", value, "");
    assert " " + value + "" == " " + value;
  }

  lemma HeaderTextParses(key: string, value: string)
    requires WellFormedEntry(key, value)
    ensures ParseLine(key + ": " + value) == Ok((key, value))
  {
    var text := key + ": " + value;
    HeaderTextColon(key, value);
    ParseLineValue(text);
    HeaderTextSides(key, value);
    StripBlankValue(value);
  }

  /** The header lines of the entries with their newlines removed. */
  function EntryTexts(entries: seq<(string, string)>): (r: seq<string>)
    ensures |r| == |entries|
    ensures forall i :: 0 <= i < |entries| ==> r[i] == entries[i].0 + ": " + entries[i].1
  {
    seq(|entries|, i requires 0 <= i < |entries| => entries[i].0 + ": " + entries[i].1)
  }

  lemma {:induction false} HeaderMapOfEntries(entries: seq<(string, string)>)
    requires forall i :: 0 <= i < |entries| ==> WellFormedEntry(entries[i].0, entries[i].1)
    ensures HeaderMap(EntryTexts(entries)) == Ok(EntriesMap(entries))
  {
    var lines := EntryTexts(entries);
    if entries != [] {
      var init := entries[..|entries| - 1];
      var last := entries[|entries| - 1];
      HeaderMapOfEntries(init);
      assert lines[..|lines| - 1] == EntryTexts(init);
      HeaderLineParses(last.0, last.1);
      HeaderMapStep(lines);
    }
  }

  lemma DocumentLines(prelude: seq<string>, open: string, entries: seq<(string, string)>,
                      close: string, body: seq<string>)
    ensures var doc := Document(prelude, open, entries, close, body);
            && |doc| == |prelude| + |entries| + 2 + |body|
            && doc[..|prelude|] == prelude
            && doc[|prelude|] == open
            && doc[|prelude| + |entries| + 1] == close
            && doc[|prelude| + |entries| + 2..] == body
            && forall i :: 0 <= i < |entries| ==>
                 doc[|prelude| + 1 + i] == HeaderLine(entries[i].0, entries[i].1)
  {
  }

  /** The header lines of a written document are no delimiters and lose
      exactly their newline. */
  lemma HeaderRegion(lines: seq<string>, entries: seq<(string, string)>)
    requires |lines| == |entries|
    requires forall i :: 0 <= i < |entries| ==> WellFormedEntry(entries[i].0, entries[i].1)
    requires forall i :: 0 <= i < |entries| ==> lines[i] == HeaderLine(entries[i].0, entries[i].1)
    ensures forall k :: 0 <= k < |lines| ==> !IsDelimiter(lines[k])
    ensures StripNewlines(lines) == EntryTexts(entries)
  {
    forall k | 0 <= k < |lines|
      ensures !IsDelimiter(lines[k]) && RStripNewlines(lines[k]) == EntryTexts(entries)[k]
    {
      HeaderLineParses(entries[k].0, entries[k].1);
    }
  }

  /** No line before the opening delimiter of a written document is a delimiter. */
  lemma PreludeClear(prelude: seq<string>, open: string, entries: seq<(string, string)>,
                     close: string, body: seq<string>)
    requires forall k :: 0 <= k < |prelude| ==> !IsDelimiter(prelude[k])
    ensures var doc := Document(prelude, open, entries, close, body);
            forall k :: 0 <= k < |prelude| ==> !IsDelimiter(doc[k])
  {
    var doc := Document(prelude, open, entries, close, body);
    DocumentLines(prelude, open, entries, close, body);
    forall k | 0 <= k < |prelude| ensures !IsDelimiter(doc[k]) {
      assert doc[k] == doc[..|prelude|][k];
    }
  }

  /** The lines between the delimiters of a written document are the
      entries' header lines. */
  lemma HeaderSlice(prelude: seq<string>, open: string, entries: seq<(string, string)>,
                    close: string, body: seq<string>)
    ensures var doc := Document(prelude, open, entries, close, body);
            var header := doc[|prelude| + 1..|prelude| + |entries| + 1];
            && |header| == |entries|
            && forall i :: 0 <= i < |entries| ==> header[i] == HeaderLine(entries[i].0, entries[i].1)
  {
    var doc := Document(prelude, open, entries, close, body);
    var p, n := |prelude|, |entries|;
    DocumentLines(prelude, open, entries, close, body);
    var header := doc[p + 1..p + n + 1];
    forall i | 0 <= i < n ensures header[i] == HeaderLine(entries[i].0, entries[i].1) {
      assert header[i] == doc[p + 1 + i];
    }
  }

  /** The header region of a written document holds no delimiter and, with
      newlines removed, is the entries' texts. */
  lemma HeaderClear(prelude: seq<string>, open: string, entries: seq<(string, string)>,
                    close: string, body: seq<string>)
    requires forall i :: 0 <= i < |entries| ==> WellFormedEntry(entries[i].0, entries[i].1)
    ensures var doc := Document(prelude, open, entries, close, body);
            var p, n := |prelude|, |entries|;
            && (forall k :: p < k < p + n + 1 ==> !IsDelimiter(doc[k]))
            && StripNewlines(doc[p + 1..p + n + 1]) == EntryTexts(entries)
  {
    var doc := Document(prelude, open, entries, close, body);
    var p, n := |prelude|, |entries|;
    var header := doc[p + 1..p + n + 1];
    HeaderSlice(prelude, open, entries, close, body);
    HeaderRegion(header, entries);
    forall k | p < k < p + n + 1 ensures !IsDelimiter(doc[k]) {
      assert doc[k] == header[k - p - 1];
    }
  }

  /** Where the parser splits a written document. */
  lemma DocumentSplits(prelude: seq<string>, open: string, entries: seq<(string, string)>,
                       close: string, body: seq<string>)
    requires forall k :: 0 <= k < |prelude| ==> !IsDelimiter(prelude[k])
    requires IsDelimiter(open) && IsDelimiter(close)
    requires forall i :: 0 <= i < |entries| ==> WellFormedEntry(entries[i].0, entries[i].1)
    ensures SplitDocument(Document(prelude, open, entries, close, body))
            == Ok(Partitioned(Concat(body), EntryTexts(entries)))
  {
    var doc := Document(prelude, open, entries, close, body);
    var p, n := |prelude|, |entries|;
    PreludeClear(prelude, open, entries, close, body);
    HeaderClear(prelude, open, entries, close, body);
    assert |doc| == p + n + 2 + |body| && doc[p] == open && doc[p + n + 1] == close
           && doc[p + n + 2..] == body by {
      DocumentLines(prelude, open, entries, close, body);
    }
    SplitKnownLayout(doc, p, n, EntryTexts(entries), body);
  }

  /** SplitDocumentLayout for a closed header of `n` lines after `p`
      prelude lines, with the header's texts and the body given. */
  lemma SplitKnownLayout(doc: seq<string>, p: nat, n: nat, texts: seq<string>, body: seq<string>)
    requires p + n + 2 <= |doc|
    requires forall k :: 0 <= k < p ==> !IsDelimiter(doc[k])
    requires IsDelimiter(doc[p]) && IsDelimiter(doc[p + n + 1])
    requires forall k :: p < k < p + n + 1 ==> !IsDelimiter(doc[k])
    requires StripNewlines(doc[p + 1..p + n + 1]) == texts
    requires doc[p + n + 2..] == body
    ensures SplitDocument(doc) == Ok(Partitioned(Concat(body), texts))
  {
    SplitDocumentLayout(doc, p, p + n + 1);
  }

  /** Writing a header and parsing it back: a document whose entries are
      well formed parses to exactly those entries (the last one winning for
      a repeated key) and to the text of its body lines, whatever the lines
      before the header and whatever follows "---" on the delimiter lines. */
  lemma RoundTrip(prelude: seq<string>, open: string, entries: seq<(string, string)>,
                  close: string, body: seq<string>)
    requires forall k :: 0 <= k < |prelude| ==> !IsDelimiter(prelude[k])
    requires IsDelimiter(open) && IsDelimiter(close)
    requires forall i :: 0 <= i < |entries| ==> WellFormedEntry(entries[i].0, entries[i].1)
    ensures ParseDocument(Document(prelude, open, entries, close, body))
            == Ok(ParsedFileData(Concat(body), EntriesMap(entries)))
  {
    DocumentSplits(prelude, open, entries, close, body);
    HeaderMapOfEntries(entries);
  }

  /** The delimiter test is a prefix test: "----" opens and "---x" closes;
      the line before the header is dropped. */
  lemma DelimiterIsPrefix()
    ensures ParseDocument(["intro\n", "----\n", "title: x\n", "---x\n", "body\n"])
            == Ok(ParsedFileData("body\n", map["title" := "x"]))
  {
    var entries := [("title", "x")];
    assert !StartsWith("title", Delimiter) by {
      assert "title"[0] == 't';
    }
    assert !IsSpace("x"[0]);
    var doc := Document(["intro\n"], "----\n", entries, "---x\n", ["body\n"]);
    assert doc == ["intro\n", "----\n", "title: x\n", "---x\n", "body\n"] by {
      DocumentLines(["intro\n"], "----\n", entries, "---x\n", ["body\n"]);
      assert doc[2] == HeaderLine("title", "x") == "title: x\n";
    }
    RoundTrip(["intro\n"], "----\n", entries, "---x\n", ["body\n"]);
    assert Concat(["body\n"]) == "body\n" by {
      assert Concat(["body\n"]) == "body\n" + Concat([]);
    }
    assert EntriesMap(entries) == map["title" := "x"] by {
      assert EntriesMap(entries) == EntriesMap([])["title" := "x"];
    }
  }
}
