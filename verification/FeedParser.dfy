/** Parsing a custom threat feed, as plain lines or as CSV, into valid rows and a sample of invalid ones. */
module FeedParser {
  import opened Options
  import opened Text
  import opened CsvLine

  const MAX_INVALID_SAMPLES: nat := 20

  /** The type rules of one feed. `fixed` is the fixed type mode; the functions are total and pure. */
  datatype Rules = Rules(
    fixed: bool, resolve: (string, Option<string>) -> Option<string>, validate: (string, string) -> bool,
    normalize: (string, string) -> string, lower: string -> string)

  datatype Reason = UndetectedType | FixedTypeMismatch | EmptyAfterNormalization

  datatype Parsed = Parsed(observable: string, observableType: string, confidence: Option<string>, raw: string)

  datatype Invalid = Invalid(raw: string, reason: Reason)

  datatype Verdict = Good(parsed: Parsed) | Bad(invalid: Invalid)

  /** A data row before it is judged. */
  datatype Candidate = Candidate(raw: string, csvType: Option<string>, confidence: Option<string>)

  function Cut(s: string, n: nat): string {
    if |s| <= n then s else s[..n]
  }

  function Judge(rules: Rules, c: Candidate): Verdict {
    var t := rules.resolve(c.raw, c.csvType);
    if t.None? || t.value == "" then Bad(Invalid(Cut(c.raw, 500), UndetectedType))
    else if rules.fixed && !rules.validate(c.raw, t.value) then Bad(Invalid(Cut(c.raw, 500), FixedTypeMismatch))
    else
      var observable := rules.normalize(c.raw, t.value);
      if observable == "" then Bad(Invalid(Cut(c.raw, 500), EmptyAfterNormalization))
      else Good(Parsed(observable, t.value, c.confidence, c.raw))
  }

  /** What a row needs to be valid, and what each refusal means; the first obstacle counts. */
  lemma JudgeVerdict(rules: Rules, c: Candidate)
    ensures
      var t := rules.resolve(c.raw, c.csvType);
      var typed := t.Some? && t.value != "";
      var fits := typed && (rules.fixed ==> rules.validate(c.raw, t.value));
      var raw := if |c.raw| <= 500 then c.raw else c.raw[..500];
      && (Judge(rules, c) == Bad(Invalid(raw, UndetectedType)) <==> !typed)
      && (Judge(rules, c) == Bad(Invalid(raw, FixedTypeMismatch)) <==> typed && !fits)
      && (Judge(rules, c) == Bad(Invalid(raw, EmptyAfterNormalization)) <==> fits && rules.normalize(c.raw, t.value) == "")
      && (Judge(rules, c).Good? <==> fits && rules.normalize(c.raw, t.value) != "")
      && (Judge(rules, c).Good? ==>
            Judge(rules, c).parsed == Parsed(rules.normalize(c.raw, t.value), t.value, c.confidence, c.raw))
  {
  }

  function GoodRows(rules: Rules, cs: seq<Candidate>): seq<Parsed> {
    if cs == [] then []
    else
      var rest := GoodRows(rules, cs[..|cs| - 1]);
      var v := Judge(rules, cs[|cs| - 1]);
      if v.Good? then rest + [v.parsed] else rest
  }

  function BadRows(rules: Rules, cs: seq<Candidate>): seq<Invalid> {
    if cs == [] then []
    else
      var rest := BadRows(rules, cs[..|cs| - 1]);
      var v := Judge(rules, cs[|cs| - 1]);
      if v.Bad? then rest + [v.invalid] else rest
  }

  /** Every data row is either valid or invalid, and counted once. */
  lemma {:induction false} RowsArePartitioned(rules: Rules, cs: seq<Candidate>)
    ensures |GoodRows(rules, cs)| + |BadRows(rules, cs)| == |cs|
  {
    if cs != [] {
      RowsArePartitioned(rules, cs[..|cs| - 1]);
    }
  }

  /** The valid rows appear in input order: each comes from a later data row than the one before it. */
  lemma {:induction false} ValidRowsKeepOrder(rules: Rules, cs: seq<Candidate>) returns (from: seq<nat>)
    ensures |from| == |GoodRows(rules, cs)|
    ensures forall i, j :: 0 <= i < j < |from| ==> from[i] < from[j]
    ensures forall i :: 0 <= i < |from| ==> from[i] < |cs| && Judge(rules, cs[from[i]]) == Good(GoodRows(rules, cs)[i])
  {
    if cs == [] {
      return [];
    }
    from := ValidRowsKeepOrder(rules, cs[..|cs| - 1]);
    if Judge(rules, cs[|cs| - 1]).Good? {
      from := from + [|cs| - 1];
    }
  }

  // ----- lines ---------------------------------------------------------------------------------

  function DropCr(line: string): string {
    if line != [] && line[|line| - 1] == '\r' then line[..|line| - 1] else line
  }

  /** text.split(/\r?\n/). */
  function LinesFrom(cur: string, text: string): seq<string>
    decreases |text|
  {
    if text == [] then [cur]
    else if text[0] == '\n' then [DropCr(cur)] + LinesFrom("", text[1..])
    else LinesFrom(cur + [text[0]], text[1..])
  }

  function Lines(text: string): seq<string> {
    LinesFrom("", text)
  }

  // What the lines of a text are, independently of how they are found.

  /** The text with every "\r\n" replaced by "\n". */
  function UnixText(text: string): string {
    if text == [] then []
    else if |text| > 1 && text[0] == '\r' && text[1] == '\n' then UnixText(text[1..])
    else [text[0]] + UnixText(text[1..])
  }

  function JoinLines(lines: seq<string>): string
    requires lines != []
  {
    if |lines| == 1 then lines[0] else lines[0] + "\n" + JoinLines(lines[1..])
  }

  /** These are the lines of the text: none holds a line break, and together they make up all of it. */
  ghost predicate IsLinesOf(lines: seq<string>, text: string) {
    && lines != [] && (forall k :: 0 <= k < |lines| ==> '\n' !in lines[k])
    && JoinLines(lines) == UnixText(text)
  }

  lemma UnixTextKeepsChar(c: char, rest: string)
    requires c != '\r' || rest == "" || rest[0] != '\n'
    ensures UnixText([c] + rest) == [c] + UnixText(rest)
  {
    assert ([c] + rest)[1..] == rest;
  }

  lemma UnixTextDropsCr(rest: string)
    ensures UnixText("\r\n" + rest) == "\n" + UnixText(rest)
  {
    assert ("\r\n" + rest)[1..] == ['\n'] + rest;
    UnixTextKeepsChar('\n', rest);
  }

  lemma {:induction false} UnixTextUpToBreak(line: string, rest: string)
    requires '\n' !in line
    ensures UnixText(line + "\n" + rest) == DropCr(line) + "\n" + UnixText(rest)
  {
    if line == "" {
      UnixTextKeepsChar('\n', rest);
      assert "" + "\n" + rest == ['\n'] + rest;
    } else if line == "\r" {
      UnixTextDropsCr(rest);
      assert line + "\n" + rest == "\r\n" + rest;
    } else {
      var c, more := line[0], line[1..];
      assert line + "\n" + rest == [c] + (more + "\n" + rest);
      assert more != "" ==> more[0] in line;
      UnixTextUpToBreak(more, rest);
      UnixTextKeepsChar(c, more + "\n" + rest);
      CrAtTheEnd(line);
    }
  }

  lemma CrAtTheEnd(line: string)
    requires line != "" && line != "\r"
    ensures DropCr(line) == [line[0]] + DropCr(line[1..])
  {
    assert line == [line[0]] + line[1..];
    assert |line| == 1 ==> line == [line[0]];
  }

  lemma {:induction false} UnixTextWithoutBreak(line: string)
    requires '\n' !in line
    ensures UnixText(line) == line
  {
    if line != "" {
      UnixTextWithoutBreak(line[1..]);
    }
  }

  lemma {:induction false} LinesFromAreLines(cur: string, text: string)
    requires '\n' !in cur
    ensures IsLinesOf(LinesFrom(cur, text), cur + text)
    decreases |text|
  {
    if text == [] {
      assert cur + text == cur;
      UnixTextWithoutBreak(cur);
    } else if text[0] == '\n' {
      LinesFromAreLines("", text[1..]);
      UnixTextUpToBreak(cur, text[1..]);
      assert cur + text == cur + "\n" + text[1..] && "" + text[1..] == text[1..];
      var rest := LinesFrom("", text[1..]);
      assert ([DropCr(cur)] + rest)[1..] == rest;
    } else {
      LinesFromAreLines(cur + [text[0]], text[1..]);
      assert cur + [text[0]] + text[1..] == cur + text;
    }
  }

  /** Splitting loses nothing and adds nothing: the lines, joined again, are the text with Unix line breaks. */
  lemma LinesMakeUpTheText(text: string)
    ensures IsLinesOf(Lines(text), text)
  {
    LinesFromAreLines("", text);
    assert "" + text == text;
  }

  lemma {:induction false} JoinIsInjective(a: seq<string>, b: seq<string>)
    requires a != [] && b != [] && JoinLines(a) == JoinLines(b)
    requires forall k :: 0 <= k < |a| ==> '\n' !in a[k]
    requires forall k :: 0 <= k < |b| ==> '\n' !in b[k]
    ensures a == b
  {
    FirstLineIsFront(a);
    FirstLineIsFront(b);
    var s := JoinLines(a);
    assert forall k :: 0 <= k < |a[0]| ==> s[k] == a[0][k] && a[0][k] in a[0];
    assert forall k :: 0 <= k < |b[0]| ==> s[k] == b[0][k] && b[0][k] in b[0];
    assert |a[0]| == |b[0]|;
    assert a[0] == s[..|a[0]|] == b[0];
    if |a| > 1 {
      assert JoinLines(a[1..]) == s[|a[0]| + 1..] == JoinLines(b[1..]);
      JoinIsInjective(a[1..], b[1..]);
      assert a == [a[0]] + a[1..] && b == [b[0]] + b[1..];
    }
  }

  lemma FirstLineIsFront(a: seq<string>)
    requires a != []
    ensures
      var s := JoinLines(a);
      && |s| >= |a[0]| && s[..|a[0]|] == a[0] && (|s| > |a[0]| <==> |a| > 1)
      && (|a| > 1 ==> s[|a[0]|] == '\n' && s[|a[0]| + 1..] == JoinLines(a[1..]))
  {
  }

  /** A text has only one list of lines. */
  lemma LinesAreUnique(lines: seq<string>, text: string)
    requires IsLinesOf(lines, text)
    ensures lines == Lines(text)
  {
    LinesMakeUpTheText(text);
    JoinIsInjective(lines, Lines(text));
  }

  predicate IsComment(line: string) {
    var t := Trim(line);
    t == "" || t[0] == '#' || t[0] == ';' || (|t| > 1 && t[0] == '/' && t[1] == '/')
  }

  function DataLines(lines: seq<string>): seq<string> {
    if lines == [] then []
    else
      var rest := DataLines(lines[..|lines| - 1]);
      if IsComment(lines[|lines| - 1]) then rest else rest + [lines[|lines| - 1]]
  }

  function TxtCandidates(lines: seq<string>): seq<Candidate> {
    if lines == [] then []
    else
      var rest := TxtCandidates(lines[..|lines| - 1]);
      if IsComment(lines[|lines| - 1]) then rest else rest + [Candidate(Trim(lines[|lines| - 1]), None, None)]
  }

  /** A line is data unless it is blank or starts, after blanks, with one of the three comment signs. */
  lemma CommentIff(line: string)
    ensures IsComment(line) <==> Trim(line) == "" || "#" <= Trim(line) || "//" <= Trim(line) || ";" <= Trim(line)
  {
    var t := Trim(line);
    assert "#" <= t <==> |t| > 0 && t[0] == '#';
    assert ";" <= t <==> |t| > 0 && t[0] == ';';
    assert "//" <= t <==> |t| > 1 && t[0] == '/' && t[1] == '/';
  }

  /** Where the lines that pass a test stand. */
  function Places(lines: seq<string>, keep: string -> bool): seq<nat> {
    if lines == [] then []
    else
      var n := |lines| - 1;
      if keep(lines[n]) then Places(lines[..n], keep) + [n] else Places(lines[..n], keep)
  }

  lemma {:induction false} PlacesIncrease(lines: seq<string>, keep: string -> bool)
    ensures forall i :: 0 <= i < |Places(lines, keep)| ==> Places(lines, keep)[i] < |lines|
    ensures forall i, j :: 0 <= i < j < |Places(lines, keep)| ==> Places(lines, keep)[i] < Places(lines, keep)[j]
  {
    if lines != [] {
      PlacesIncrease(lines[..|lines| - 1], keep);
    }
  }

  lemma {:induction false} PlacesAreAll(lines: seq<string>, keep: string -> bool, k: nat)
    requires k < |lines|
    ensures k in Places(lines, keep) <==> keep(lines[k])
  {
    var n := |lines| - 1;
    PlacesIncrease(lines[..n], keep);
    if k < n {
      PlacesAreAll(lines[..n], keep, k);
    }
  }

  /** These are the places of all lines that pass the test, in order. */
  ghost predicate ArePlacesOf(from: seq<nat>, lines: seq<string>, keep: string -> bool) {
    && (forall i :: 0 <= i < |from| ==> from[i] < |lines|)
    && (forall i, j :: 0 <= i < j < |from| ==> from[i] < from[j])
    && (forall k :: 0 <= k < |lines| ==> (k in from <==> keep(lines[k])))
  }

  lemma PlacesArePlaces(lines: seq<string>, keep: string -> bool)
    ensures ArePlacesOf(Places(lines, keep), lines, keep)
  {
    PlacesIncrease(lines, keep);
    forall k | 0 <= k < |lines|
      ensures k in Places(lines, keep) <==> keep(lines[k])
    {
      PlacesAreAll(lines, keep, k);
    }
  }

  /** The rows of a text feed are its data lines, trimmed, each once and in order. */
  lemma TxtRowsAreDataLines(lines: seq<string>) returns (from: seq<nat>)
    ensures ArePlacesOf(from, lines, line => !IsComment(line)) && |from| == |TxtCandidates(lines)|
    ensures forall i :: 0 <= i < |from| ==> TxtCandidates(lines)[i] == Candidate(Trim(lines[from[i]]), None, None)
  {
    from := Places(lines, line => !IsComment(line));
    PlacesArePlaces(lines, line => !IsComment(line));
    TxtRowsAtPlaces(lines, line => !IsComment(line));
  }

  lemma {:induction false} TxtRowsAtPlaces(lines: seq<string>, keep: string -> bool)
    requires forall line :: keep(line) <==> !IsComment(line)
    ensures |Places(lines, keep)| == |TxtCandidates(lines)|
    ensures forall i :: 0 <= i < |Places(lines, keep)| ==> Places(lines, keep)[i] < |lines|
    ensures forall i :: 0 <= i < |Places(lines, keep)| ==>
              TxtCandidates(lines)[i] == Candidate(Trim(lines[Places(lines, keep)[i]]), None, None)
  {
    if lines != [] {
      TxtRowsAtPlaces(lines[..|lines| - 1], keep);
    }
  }

  /** The lines of a CSV feed that are looked at are its data lines, in order. */
  lemma DataLinesAreLines(lines: seq<string>) returns (from: seq<nat>)
    ensures ArePlacesOf(from, lines, line => !IsComment(line)) && |from| == |DataLines(lines)|
    ensures forall i :: 0 <= i < |from| ==> DataLines(lines)[i] == lines[from[i]]
  {
    from := Places(lines, line => !IsComment(line));
    PlacesArePlaces(lines, line => !IsComment(line));
    DataLinesAtPlaces(lines, line => !IsComment(line));
  }

  lemma {:induction false} DataLinesAtPlaces(lines: seq<string>, keep: string -> bool)
    requires forall line :: keep(line) <==> !IsComment(line)
    ensures |Places(lines, keep)| == |DataLines(lines)|
    ensures forall i :: 0 <= i < |Places(lines, keep)| ==> Places(lines, keep)[i] < |lines|
    ensures forall i :: 0 <= i < |Places(lines, keep)| ==> DataLines(lines)[i] == lines[Places(lines, keep)[i]]
  {
    if lines != [] {
      DataLinesAtPlaces(lines[..|lines| - 1], keep);
    }
  }

  // ----- CSV -----------------------------------------------------------------------------------

  /** The first column whose header is the name, for the first name that occurs; |headers| when none does. */
  function HeaderIndex(rules: Rules, headers: seq<string>, names: seq<string>): (i: nat)
    ensures i <= |headers|
    ensures i == |headers| <==> forall k, n :: 0 <= k < |headers| && 0 <= n < |names| ==> !IsHeader(rules, headers[k], names[n])
    ensures i < |headers| ==> exists n :: 0 <= n < |names| && IsHeader(rules, headers[i], names[n])
                                && (forall k :: 0 <= k < i ==> !IsHeader(rules, headers[k], names[n]))
                                && (forall k, m :: 0 <= k < |headers| && 0 <= m < n ==> !IsHeader(rules, headers[k], names[m]))
  {
    if names == [] then |headers|
    else
      var i := ColumnOf(rules, headers, names[0]);
      if i < |headers| then i
      else
        var j := HeaderIndex(rules, headers, names[1..]);
        assert forall n :: 0 < n < |names| ==> names[n] == names[1..][n - 1];
        assert j < |headers| ==> forall n :: 0 <= n < |names[1..]| ==> names[1..][n] == names[n + 1];
        j
  }

  /** The header cell carries the name, whatever its case and outer blanks. */
  predicate IsHeader(rules: Rules, header: string, name: string) {
    rules.lower(Trim(header)) == name
  }

  function ColumnOf(rules: Rules, headers: seq<string>, name: string): (i: nat)
    ensures i <= |headers| && (i < |headers| ==> IsHeader(rules, headers[i], name))
    ensures forall k :: 0 <= k < i ==> !IsHeader(rules, headers[k], name)
  {
    if headers == [] || IsHeader(rules, headers[0], name) then 0 else ColumnOf(rules, headers[1..], name) + 1
  }

  /** Which columns hold the value, the type and the confidence; None is an absent column. */
  datatype Columns = Columns(value: nat, csvType: Option<nat>, confidence: Option<nat>, hasHeader: bool)

  function ReadHeader(rules: Rules, first: string): Columns {
    var cols := Split(first);
    var v := HeaderIndex(rules, cols, ["value", "ioc", "indicator"]);
    if v == |cols| then Columns(0, None, None, false)
    else
      var t, c := HeaderIndex(rules, cols, ["type"]), HeaderIndex(rules, cols, ["confidence"]);
      Columns(v, if t < |cols| then Some(t) else None, if c < |cols| then Some(c) else None, true)
  }

  function Cell(cols: seq<string>, i: Option<nat>): Option<string> {
    if i.Some? && i.value < |cols| then Some(cols[i.value]) else None
  }

  function CsvCandidate(rules: Rules, columns: Columns, line: string): Option<Candidate> {
    var cols := Split(line);
    var cell := Cell(cols, Some(columns.value));
    var raw := if cell.Some? then Trim(cell.value) else "";
    if raw == "" then None
    else
      var conf := Cell(cols, columns.confidence);
      Some(Candidate(raw, Cell(cols, columns.csvType),
                     if conf.Some? && conf.value != "" then Some(rules.lower(Trim(conf.value))) else None))
  }

  /** Which cells a CSV row is made of: a row needs a value that is not blank; a missing or empty confidence is none. */
  lemma CsvRowIs(rules: Rules, columns: Columns, line: string)
    ensures
      var cols, c := Split(line), CsvCandidate(rules, columns, line);
      && (c.Some? <==> columns.value < |cols| && Trim(cols[columns.value]) != "")
      && (c.Some? ==>
            && c.value.raw == Trim(cols[columns.value])
            && (c.value.csvType.Some? <==> columns.csvType.Some? && columns.csvType.value < |cols|)
            && (c.value.csvType.Some? ==> c.value.csvType.value == cols[columns.csvType.value])
            && (c.value.confidence.Some? <==>
                  columns.confidence.Some? && columns.confidence.value < |cols| && cols[columns.confidence.value] != "")
            && (c.value.confidence.Some? ==> c.value.confidence.value == rules.lower(Trim(cols[columns.confidence.value]))))
  {
  }

  predicate NamesValue(rules: Rules, header: string) {
    IsHeader(rules, header, "value") || IsHeader(rules, header, "ioc") || IsHeader(rules, header, "indicator")
  }

  /**
   The first data line is a header exactly when one of its cells is named value, ioc or indicator, in this
   preference; then the type and confidence columns are those so named, and it is not a row itself.
   */
  lemma HeaderVerdict(rules: Rules, first: string)
    ensures
      var cols, h := Split(first), ReadHeader(rules, first);
      && (h.hasHeader <==> exists k :: 0 <= k < |cols| && NamesValue(rules, cols[k]))
      && (!h.hasHeader ==> h.value == 0 && h.csvType == None && h.confidence == None)
      && (h.hasHeader ==>
            && h.value < |cols| && NamesValue(rules, cols[h.value])
            && (IsHeader(rules, cols[h.value], "indicator") && !IsHeader(rules, cols[h.value], "ioc") && !IsHeader(rules, cols[h.value], "value")
                ==> forall k :: 0 <= k < |cols| ==> !IsHeader(rules, cols[k], "ioc"))
            && (!IsHeader(rules, cols[h.value], "value") ==> forall k :: 0 <= k < |cols| ==> !IsHeader(rules, cols[k], "value"))
            && (h.csvType.Some? <==> exists k :: 0 <= k < |cols| && IsHeader(rules, cols[k], "type"))
            && (h.csvType.Some? ==> h.csvType.value < |cols| && IsHeader(rules, cols[h.csvType.value], "type"))
            && (h.confidence.Some? <==> exists k :: 0 <= k < |cols| && IsHeader(rules, cols[k], "confidence"))
            && (h.confidence.Some? ==> h.confidence.value < |cols| && IsHeader(rules, cols[h.confidence.value], "confidence")))
  {
    var cols := Split(first);
    var v, t, c := ["value", "ioc", "indicator"], ["type"], ["confidence"];
    assert v[0] == "value" && v[1] == "ioc" && v[2] == "indicator" && t[0] == "type" && c[0] == "confidence";
  }

  function CsvCandidates(rules: Rules, columns: Columns, lines: seq<string>): seq<Candidate> {
    if lines == [] then []
    else
      var rest := CsvCandidates(rules, columns, lines[..|lines| - 1]);
      var c := CsvCandidate(rules, columns, lines[|lines| - 1]);
      if c.None? then rest else rest + [c.value]
  }

  function CsvRows(rules: Rules, lines: seq<string>): seq<Candidate> {
    if lines == [] then []
    else
      var columns := ReadHeader(rules, lines[0]);
      CsvCandidates(rules, columns, if columns.hasHeader then lines[1..] else lines)
  }

  lemma {:induction false} CsvRowsAtPlaces(rules: Rules, columns: Columns, lines: seq<string>, keep: string -> bool)
    requires forall line :: keep(line) <==> CsvCandidate(rules, columns, line).Some?
    ensures |Places(lines, keep)| == |CsvCandidates(rules, columns, lines)|
    ensures forall i :: 0 <= i < |Places(lines, keep)| ==> Places(lines, keep)[i] < |lines|
    ensures forall i :: 0 <= i < |Places(lines, keep)| ==>
              CsvCandidate(rules, columns, lines[Places(lines, keep)[i]]) == Some(CsvCandidates(rules, columns, lines)[i])
  {
    if lines != [] {
      CsvRowsAtPlaces(rules, columns, lines[..|lines| - 1], keep);
    }
  }

  /** The rows of a CSV feed come, each once and in order, from the data lines below the header that hold a value. */
  lemma CsvRowsAreDataLines(rules: Rules, lines: seq<string>) returns (from: seq<nat>)
    requires lines != []
    ensures
      var columns, rows := ReadHeader(rules, lines[0]), CsvRows(rules, lines);
      var below := if columns.hasHeader then lines[1..] else lines;
      && ArePlacesOf(from, below, line => CsvCandidate(rules, columns, line).Some?) && |from| == |rows|
      && (forall i :: 0 <= i < |from| ==> CsvCandidate(rules, columns, below[from[i]]) == Some(rows[i]))
  {
    var columns := ReadHeader(rules, lines[0]);
    var below := if columns.hasHeader then lines[1..] else lines;
    from := Places(below, line => CsvCandidate(rules, columns, line).Some?);
    PlacesArePlaces(below, line => CsvCandidate(rules, columns, line).Some?);
    CsvRowsAtPlaces(rules, columns, below, line => CsvCandidate(rules, columns, line).Some?);
  }

  // ----- the parsers ---------------------------------------------------------------------------

  function Sample(bad: seq<Invalid>): seq<Invalid> {
    if |bad| <= MAX_INVALID_SAMPLES then bad else bad[..MAX_INVALID_SAMPLES]
  }

  /** What the loop of a parser makes of these data rows. */
  ghost predicate IsResult(rules: Rules, cs: seq<Candidate>, valid: seq<Parsed>, invalid: seq<Invalid>) {
    valid == GoodRows(rules, cs) && invalid == Sample(BadRows(rules, cs))
  }

  /** When the separate count of data rows agrees with the loop, the sample accounts for every row that is not valid. */
  lemma SampleSize(rules: Rules, cs: seq<Candidate>, valid: seq<Parsed>, invalid: seq<Invalid>, totalRows: nat)
    requires IsResult(rules, cs, valid, invalid) && totalRows == |cs|
    ensures |valid| <= totalRows && invalid <= BadRows(rules, cs)
    ensures |invalid| == if totalRows - |valid| <= 20 then totalRows - |valid| else 20
  {
    RowsArePartitioned(rules, cs);
  }

  /** The invalid rows appear in input order too. */
  lemma {:induction false} InvalidRowsKeepOrder(rules: Rules, cs: seq<Candidate>) returns (from: seq<nat>)
    ensures |from| == |BadRows(rules, cs)| && (forall i, j :: 0 <= i < j < |from| ==> from[i] < from[j])
    ensures forall i :: 0 <= i < |from| ==> from[i] < |cs| && Judge(rules, cs[from[i]]) == Bad(BadRows(rules, cs)[i])
  {
    if cs == [] {
      return [];
    }
    from := InvalidRowsKeepOrder(rules, cs[..|cs| - 1]);
    if Judge(rules, cs[|cs| - 1]).Bad? {
      from := from + [|cs| - 1];
    }
  }

  /** One row of either loop: push a valid row, or an invalid one while the sample has room. */
  method JudgeInto(rules: Rules, c: Candidate, valid0: seq<Parsed>, invalid0: seq<Invalid>, ghost cs: seq<Candidate>)
    returns (valid: seq<Parsed>, invalid: seq<Invalid>)
    requires IsResult(rules, cs, valid0, invalid0)
    ensures IsResult(rules, cs + [c], valid, invalid)
  {
    assert (cs + [c])[..|cs|] == cs;
    valid, invalid := valid0, invalid0;
    match Judge(rules, c)
    case Good(p) => valid := valid + [p];
    case Bad(b) =>
      if |invalid| < MAX_INVALID_SAMPLES {
        invalid := invalid + [b];
      }
  }

  // ----- the second pass -----------------------------------------------------------------------

  /** lines.filter(...): what the row count of a text feed keeps. */
  function TxtCounted(lines: seq<string>): seq<string> {
    if lines == [] then []
    else
      var front, line := TxtCounted(lines[..|lines| - 1]), lines[|lines| - 1];
      if !IsComment(line) && Trim(line) != "" then front + [line] else front
  }

  /** What the row count of a CSV feed keeps: the lines whose value cell is there and not blank. */
  function CsvCounted(columns: Columns, lines: seq<string>): seq<string> {
    if lines == [] then []
    else
      var front, line := CsvCounted(columns, lines[..|lines| - 1]), lines[|lines| - 1];
      var cols := Split(line);
      if columns.value < |cols| && Trim(cols[columns.value]) != "" then front + [line] else front
  }

  /** The count and the loop see the same rows, in the same order. */
  lemma {:induction false} TxtPassesAgree(lines: seq<string>)
    ensures |TxtCounted(lines)| == |TxtCandidates(lines)|
    ensures forall k :: 0 <= k < |TxtCounted(lines)| ==> TxtCandidates(lines)[k].raw == Trim(TxtCounted(lines)[k])
  {
    if lines != [] {
      TxtPassesAgree(lines[..|lines| - 1]);
    }
  }

  lemma {:induction false} CsvPassesAgree(rules: Rules, columns: Columns, lines: seq<string>)
    ensures |CsvCounted(columns, lines)| == |CsvCandidates(rules, columns, lines)|
    ensures forall k :: 0 <= k < |CsvCounted(columns, lines)| ==>
              CsvCandidate(rules, columns, CsvCounted(columns, lines)[k]) == Some(CsvCandidates(rules, columns, lines)[k])
  {
    if lines != [] {
      CsvPassesAgree(rules, columns, lines[..|lines| - 1]);
    }
  }

  method CountTxtRows(lines: seq<string>) returns (n: nat)
    ensures n == |TxtCounted(lines)|
  {
    n := 0;
    for k := 0 to |lines|
      invariant n == |TxtCounted(lines[..k])|
    {
      assert lines[..k + 1][..k] == lines[..k];
      if !IsComment(lines[k]) && Trim(lines[k]) != "" {
        n := n + 1;
      }
    }
    assert lines[..|lines|] == lines;
  }

  method CountCsvRows(columns: Columns, lines: seq<string>) returns (n: nat)
    ensures n == |CsvCounted(columns, lines)|
  {
    n := 0;
    for k := 0 to |lines|
      invariant n == |CsvCounted(columns, lines[..k])|
    {
      assert lines[..k + 1][..k] == lines[..k];
      var cols := SplitCsvLine(lines[k]);
      if columns.value < |cols| && Trim(cols[columns.value]) != "" {
        n := n + 1;
      }
    }
    assert lines[..|lines|] == lines;
  }

  method ParseTxtFeedContent(rules: Rules, text: string) returns (valid: seq<Parsed>, invalid: seq<Invalid>, totalRows: nat)
    ensures forall lines :: IsLinesOf(lines, text) ==>
              IsResult(rules, TxtCandidates(lines), valid, invalid) && totalRows == |TxtCandidates(lines)|
    ensures |invalid| == if totalRows - |valid| <= 20 then totalRows - |valid| else 20
  {
    valid, invalid := [], [];
    var lines := Lines(text);
    for k := 0 to |lines|
      invariant IsResult(rules, TxtCandidates(lines[..k]), valid, invalid)
    {
      assert lines[..k + 1][..k] == lines[..k];
      if !IsComment(lines[k]) {
        var c := Candidate(Trim(lines[k]), None, None);
        valid, invalid := JudgeInto(rules, c, valid, invalid, TxtCandidates(lines[..k]));
      }
    }
    assert lines[..|lines|] == lines;
    totalRows := CountTxtRows(lines);
    TxtPassesAgree(lines);
    SampleSize(rules, TxtCandidates(lines), valid, invalid, totalRows);
    forall other | IsLinesOf(other, text)
      ensures other == lines
    {
      LinesAreUnique(other, text);
    }
  }

  /** The loop over the lines below the header. */
  method ParseCsvRows(rules: Rules, columns: Columns, data: seq<string>) returns (valid: seq<Parsed>, invalid: seq<Invalid>)
    ensures IsResult(rules, CsvCandidates(rules, columns, data), valid, invalid)
  {
    valid, invalid := [], [];
    for k := 0 to |data|
      invariant IsResult(rules, CsvCandidates(rules, columns, data[..k]), valid, invalid)
    {
      assert data[..k + 1][..k] == data[..k];
      var c := CsvCandidate(rules, columns, data[k]);
      if c.Some? {
        valid, invalid := JudgeInto(rules, c.value, valid, invalid, CsvCandidates(rules, columns, data[..k]));
      }
    }
    assert data[..|data|] == data;
  }

  method ParseCsvFeedContent(rules: Rules, text: string) returns (valid: seq<Parsed>, invalid: seq<Invalid>, totalRows: nat)
    ensures forall lines :: IsLinesOf(lines, text) ==>
              IsResult(rules, CsvRows(rules, DataLines(lines)), valid, invalid) && totalRows == |CsvRows(rules, DataLines(lines))|
    ensures |invalid| == if totalRows - |valid| <= 20 then totalRows - |valid| else 20
  {
    valid, invalid, totalRows := [], [], 0;
    forall other | IsLinesOf(other, text)
      ensures other == Lines(text)
    {
      LinesAreUnique(other, text);
    }
    var lines := DataLines(Lines(text));
    if lines == [] {
      return;
    }
    var columns := ReadHeader(rules, lines[0]);
    var data := if columns.hasHeader then lines[1..] else lines;
    valid, invalid := ParseCsvRows(rules, columns, data);
    totalRows := CountCsvRows(columns, data);
    CsvPassesAgree(rules, columns, data);
    SampleSize(rules, CsvCandidates(rules, columns, data), valid, invalid, totalRows);
  }
}
