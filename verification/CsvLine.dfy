/** The CSV field splitter both importers share, and the encoding of section 2 of RFC 4180 it undoes. */
module CsvLine {
  import opened Text

  /** Where the scanner is: the finished fields, the current one, and whether it is inside quotes. */
  datatype Scan = Scan(fields: seq<string>, cur: string, inQuotes: bool)

  /** The rest of a line, scanned from a state: the functional form of the loop. */
  function ScanFrom(s: Scan, line: string): seq<string>
    decreases |line|
  {
    if line == [] then s.fields + [Trim(s.cur)]
    else if line[0] == '"' then
      if s.inQuotes && |line| > 1 && line[1] == '"' then ScanFrom(s.(cur := s.cur + ['"']), line[2..])
      else ScanFrom(s.(inQuotes := !s.inQuotes), line[1..])
    else if line[0] == ',' && !s.inQuotes then ScanFrom(Scan(s.fields + [Trim(s.cur)], "", false), line[1..])
    else ScanFrom(s.(cur := s.cur + [line[0]]), line[1..])
  }

  function Split(line: string): seq<string> {
    ScanFrom(Scan([], "", false), line)
  }

  /** splitCsvLine, character by character. */
  method SplitCsvLine(line: string) returns (fields: seq<string>)
    ensures fields == Split(line)
  {
    fields := [];
    var cur := "";
    var inQuotes := false;
    var i := 0;
    while i < |line|
      invariant 0 <= i <= |line|
      invariant ScanFrom(Scan(fields, cur, inQuotes), line[i..]) == Split(line)
    {
      var ch := line[i];
      if ch == '"' {
        if inQuotes && i + 1 < |line| && line[i + 1] == '"' {
          cur := cur + ['"'];
          i := i + 1;
        } else {
          inQuotes := !inQuotes;
        }
      } else if ch == ',' && !inQuotes {
        fields := fields + [Trim(cur)];
        cur := "";
      } else {
        cur := cur + [ch];
      }
      i := i + 1;
    }
    fields := fields + [Trim(cur)];
  }

  // ----- where any line is cut -----------------------------------------------------------------

  function Quotes(line: string): nat {
    if line == [] then 0 else Quotes(line[..|line| - 1]) + if line[|line| - 1] == '"' then 1 else 0
  }

  /** The comma at k separates fields: an even number of quotes stands before it. */
  predicate Separates(line: string, k: nat)
    requires k < |line|
  {
    line[k] == ',' && Quotes(line[..k]) % 2 == 0
  }

  /** How many commas from i on separate fields. */
  function Separators(line: string, i: nat): nat
    requires i <= |line|
    decreases |line| - i
  {
    if i == |line| then 0 else Separators(line, i + 1) + if Separates(line, i) then 1 else 0
  }

  lemma OneMoreChar(line: string, i: nat)
    requires i < |line|
    ensures Quotes(line[..i + 1]) == Quotes(line[..i]) + if line[i] == '"' then 1 else 0
  {
    assert line[..i + 1][..i] == line[..i];
  }

  /** The scanner after its next move at i, and where it stands then. */
  function Advance(s: Scan, line: string, i: nat): (Scan, nat)
    requires i < |line|
  {
    if line[i] == '"' then
      if s.inQuotes && i + 1 < |line| && line[i + 1] == '"' then (s.(cur := s.cur + ['"']), i + 2)
      else (s.(inQuotes := !s.inQuotes), i + 1)
    else if line[i] == ',' && !s.inQuotes then (Scan(s.fields + [Trim(s.cur)], "", false), i + 1)
    else (s.(cur := s.cur + [line[i]]), i + 1)
  }

  /** It is inside quotes exactly after an odd number of them. */
  ghost predicate InStep(s: Scan, line: string, i: nat) {
    i <= |line| && (s.inQuotes <==> Quotes(line[..i]) % 2 == 1)
  }

  lemma ScanAdvances(s: Scan, line: string, i: nat)
    requires i < |line|
    ensures i < Advance(s, line, i).1 <= |line|
    ensures ScanFrom(s, line[i..]) == ScanFrom(Advance(s, line, i).0, line[Advance(s, line, i).1..])
  {
    var rest := line[i..];
    assert rest[0] == line[i] && rest[1..] == line[i + 1..];
    if |rest| > 1 {
      assert rest[1] == line[i + 1] && rest[2..] == line[i + 2..];
    }
  }

  lemma AdvanceKeepsStep(s: Scan, line: string, i: nat)
    requires i < |line| && InStep(s, line, i)
    ensures InStep(Advance(s, line, i).0, line, Advance(s, line, i).1)
  {
    OneMoreChar(line, i);
    if i + 1 < |line| {
      OneMoreChar(line, i + 1);
    }
  }

  lemma AdvanceCounts(s: Scan, line: string, i: nat)
    requires i < |line| && InStep(s, line, i)
    ensures
      var (s', j) := Advance(s, line, i);
      i < j <= |line| && |s'.fields| + Separators(line, j) == |s.fields| + Separators(line, i)
  {
    if line[i] == '"' && s.inQuotes && i + 1 < |line| && line[i + 1] == '"' {
      assert Separators(line, i + 1) == Separators(line, i + 2);
    }
  }

  lemma {:induction false} ScanCutsAtSeparators(s: Scan, line: string, i: nat)
    requires InStep(s, line, i)
    ensures |ScanFrom(s, line[i..])| == |s.fields| + 1 + Separators(line, i)
    decreases |line| - i
  {
    if i < |line| {
      var (s', j) := Advance(s, line, i);
      ScanAdvances(s, line, i);
      AdvanceKeepsStep(s, line, i);
      AdvanceCounts(s, line, i);
      ScanCutsAtSeparators(s', line, j);
    }
  }

  /** Any line, well-formed or not, is cut exactly at the commas with an even number of quotes before them. */
  lemma SplitCutsAtSeparators(line: string)
    ensures |Split(line)| == 1 + Separators(line, 0)
  {
    assert line[0..] == line && line[..0] == [];
    ScanCutsAtSeparators(Scan([], "", false), line, 0);
  }

  /** The characters of a text that are neither blanks nor quotes. */
  function Solid(s: string): string {
    if s == [] then []
    else
      var n := |s| - 1;
      if IsSpace(s[n]) || s[n] == '"' then Solid(s[..n]) else Solid(s[..n]) + [s[n]]
  }

  function Flatten(fields: seq<string>): string {
    if fields == [] then [] else Flatten(fields[..|fields| - 1]) + fields[|fields| - 1]
  }

  /** The solid characters of the line from i on, without the separators. */
  function SolidFrom(line: string, i: nat): string
    requires i <= |line|
    decreases |line| - i
  {
    if i == |line| then []
    else (if Separates(line, i) then [] else Solid([line[i]])) + SolidFrom(line, i + 1)
  }

  lemma {:induction false} SolidOfBoth(a: string, b: string)
    ensures Solid(a + b) == Solid(a) + Solid(b)
  {
    if b == [] {
      assert a + b == a;
    } else {
      var n := |b| - 1;
      SolidOfBoth(a, b[..n]);
      assert (a + b)[..|a + b| - 1] == a + b[..n] && (a + b)[|a + b| - 1] == b[n];
    }
  }

  lemma {:induction false} SolidOfSpaces(s: string)
    requires AllSpaces(s)
    ensures Solid(s) == []
  {
    if s != [] {
      SolidOfSpaces(s[..|s| - 1]);
    }
  }

  lemma SolidOfTrimmed(s: string)
    ensures Solid(Trim(s)) == Solid(s)
  {
    var front, back := TrimCutsSpaces(s);
    SolidOfSpaces(front);
    SolidOfSpaces(back);
    SolidOfBoth(front + Trim(s), back);
    SolidOfBoth(front, Trim(s));
  }

  lemma FlattenOneMore(fields: seq<string>, field: string)
    ensures Flatten(fields + [field]) == Flatten(fields) + field
  {
    assert (fields + [field])[..|fields|] == fields;
  }

  /** What a finished field adds. */
  lemma FieldIsKept(fields: seq<string>, cur: string)
    ensures Solid(Flatten(fields + [Trim(cur)])) == Solid(Flatten(fields)) + Solid(cur)
  {
    FlattenOneMore(fields, Trim(cur));
    SolidOfBoth(Flatten(fields), Trim(cur));
    SolidOfTrimmed(cur);
  }

  /** What a scanner has kept so far. */
  function Kept(s: Scan): string {
    Solid(Flatten(s.fields)) + Solid(s.cur)
  }

  lemma KeptWithChar(s: Scan, c: char)
    ensures Kept(s.(cur := s.cur + [c])) == Kept(s) + Solid([c])
  {
    SolidOfBoth(s.cur, [c]);
    assert Kept(s.(cur := s.cur + [c])) == Solid(Flatten(s.fields)) + (Solid(s.cur) + Solid([c]));
  }

  lemma KeptAtSeparator(s: Scan)
    ensures Kept(Scan(s.fields + [Trim(s.cur)], "", false)) == Kept(s)
  {
    FieldIsKept(s.fields, s.cur);
  }

  lemma SolidFromStep(line: string, i: nat)
    requires i < |line|
    ensures line[i] == '"' || Separates(line, i) ==> SolidFrom(line, i) == SolidFrom(line, i + 1)
    ensures line[i] != '"' && !Separates(line, i) ==> SolidFrom(line, i) == Solid([line[i]]) + SolidFrom(line, i + 1)
  {
    QuoteIsNotSolid();
  }

  lemma QuoteIsNotSolid()
    ensures Solid(['"']) == []
  {
    assert ['"'][..0] == [];
  }

  lemma AdvanceKeepsSolid(s: Scan, line: string, i: nat)
    requires i < |line| && InStep(s, line, i)
    ensures
      var (s', j) := Advance(s, line, i);
      i < j <= |line| && Kept(s') + SolidFrom(line, j) == Kept(s) + SolidFrom(line, i)
  {
    SolidFromStep(line, i);
    if line[i] == '"' && s.inQuotes && i + 1 < |line| && line[i + 1] == '"' {
      SolidFromStep(line, i + 1);
      KeptWithChar(s, '"');
      QuoteIsNotSolid();
    } else if line[i] == ',' && !s.inQuotes {
      KeptAtSeparator(s);
    } else if line[i] != '"' {
      KeptWithChar(s, line[i]);
      assert Kept(s) + Solid([line[i]]) + SolidFrom(line, i + 1) == Kept(s) + (Solid([line[i]]) + SolidFrom(line, i + 1));
    }
  }

  lemma {:induction false} ScanKeepsSolid(s: Scan, line: string, i: nat)
    requires InStep(s, line, i)
    ensures Solid(Flatten(ScanFrom(s, line[i..]))) == Kept(s) + SolidFrom(line, i)
    decreases |line| - i
  {
    if i == |line| {
      FieldIsKept(s.fields, s.cur);
    } else {
      var (s', j) := Advance(s, line, i);
      ScanAdvances(s, line, i);
      AdvanceKeepsStep(s, line, i);
      AdvanceKeepsSolid(s, line, i);
      ScanKeepsSolid(s', line, j);
    }
  }

  /** Nothing but separators, quotes and blanks is ever dropped from a line, and the order stays. */
  lemma SplitKeepsSolid(line: string)
    ensures Solid(Flatten(Split(line))) == SolidFrom(line, 0)
  {
    assert line[0..] == line && line[..0] == [];
    ScanKeepsSolid(Scan([], "", false), line, 0);
  }

  // ----- RFC 4180 section 2 --------------------------------------------------------------------

  /** A field that must be quoted. Lines are split before fields, so line breaks do not occur here. */
  predicate MustQuote(field: string) {
    ',' in field || '"' in field
  }

  function DoubleQuotes(field: string): string {
    if field == [] then []
    else (if field[0] == '"' then ['"', '"'] else [field[0]]) + DoubleQuotes(field[1..])
  }

  function EncodeField(field: string, quoted: bool): string {
    if quoted then ['"'] + DoubleQuotes(field) + ['"'] else field
  }

  /** Fields joined with commas; any field may be quoted, those that need it must be. */
  function EncodeLine(fields: seq<string>, quoted: seq<bool>): string
    requires |fields| == |quoted| > 0
  {
    if |fields| == 1 then EncodeField(fields[0], quoted[0])
    else EncodeField(fields[0], quoted[0]) + [','] + EncodeLine(fields[1..], quoted[1..])
  }

  ghost predicate IsQuoting(fields: seq<string>, quoted: seq<bool>) {
    |fields| == |quoted| > 0 && forall i :: 0 <= i < |fields| && MustQuote(fields[i]) ==> quoted[i]
  }

  function TrimAll(fields: seq<string>): seq<string> {
    if fields == [] then [] else [Trim(fields[0])] + TrimAll(fields[1..])
  }

  lemma {:induction false} ScanPlain(s: Scan, field: string, rest: string)
    requires !s.inQuotes && !MustQuote(field)
    ensures ScanFrom(s, field + rest) == ScanFrom(s.(cur := s.cur + field), rest)
    decreases |field|
  {
    if field == [] {
      assert field + rest == rest && s.cur + field == s.cur;
    } else {
      assert field[0] in field;
      assert (field + rest)[1..] == field[1..] + rest;
      assert forall c :: c in field[1..] ==> c in field;
      ScanPlain(s.(cur := s.cur + [field[0]]), field[1..], rest);
      assert s.cur + [field[0]] + field[1..] == s.cur + field;
    }
  }

  /** What may follow a closing quote: nothing, or a comma. */
  predicate EndsField(rest: string) {
    rest == [] || rest[0] == ','
  }

  lemma {:induction false} ScanQuoted(s: Scan, field: string, rest: string)
    requires s.inQuotes && EndsField(rest)
    ensures ScanFrom(s, DoubleQuotes(field) + ['"'] + rest) == ScanFrom(s.(cur := s.cur + field, inQuotes := false), rest)
    decreases |field|
  {
    var line := DoubleQuotes(field) + ['"'] + rest;
    if field == [] {
      assert line == ['"'] + rest && line[1..] == rest && s.cur + field == s.cur;
    } else {
      var tail := DoubleQuotes(field[1..]) + ['"'] + rest;
      if field[0] == '"' {
        assert line == ['"', '"'] + tail && line[2..] == tail;
      } else {
        assert line == [field[0]] + tail && line[1..] == tail;
      }
      ScanQuoted(s.(cur := s.cur + [field[0]]), field[1..], rest);
      assert s.cur + [field[0]] + field[1..] == s.cur + field;
    }
  }

  lemma ScanQuotedField(fields: seq<string>, field: string, rest: string)
    requires EndsField(rest)
    ensures ScanFrom(Scan(fields, "", false), EncodeField(field, true) + rest) == ScanFrom(Scan(fields, field, false), rest)
  {
    var inner := DoubleQuotes(field) + ['"'] + rest;
    assert EncodeField(field, true) + rest == ['"'] + inner && (['"'] + inner)[1..] == inner;
    ScanQuoted(Scan(fields, "", true), field, rest);
    assert "" + field == field;
  }

  lemma ScanField(fields: seq<string>, field: string, quoted: bool, rest: string)
    requires (MustQuote(field) ==> quoted) && EndsField(rest)
    ensures ScanFrom(Scan(fields, "", false), EncodeField(field, quoted) + rest) == ScanFrom(Scan(fields, field, false), rest)
  {
    if quoted {
      ScanQuotedField(fields, field, rest);
    } else {
      ScanPlain(Scan(fields, "", false), field, rest);
      assert "" + field == field;
    }
  }

  lemma ScanComma(done: seq<string>, field: string, more: string)
    ensures ScanFrom(Scan(done, field, false), [','] + more) == ScanFrom(Scan(done + [Trim(field)], "", false), more)
  {
    assert ([','] + more)[1..] == more;
  }

  lemma {:induction false} ScanEncoded(done: seq<string>, fields: seq<string>, quoted: seq<bool>)
    requires IsQuoting(fields, quoted)
    ensures ScanFrom(Scan(done, "", false), EncodeLine(fields, quoted)) == done + TrimAll(fields)
    decreases |fields|
  {
    if |fields| == 1 {
      ScanLastField(done, fields[0], quoted[0]);
      assert TrimAll(fields) == [Trim(fields[0])];
    } else {
      ScanFirstField(done, fields, quoted);
      ScanEncoded(done + [Trim(fields[0])], fields[1..], quoted[1..]);
      assert done + [Trim(fields[0])] + TrimAll(fields[1..]) == done + TrimAll(fields);
    }
  }

  lemma ScanLastField(done: seq<string>, field: string, quoted: bool)
    requires MustQuote(field) ==> quoted
    ensures ScanFrom(Scan(done, "", false), EncodeField(field, quoted)) == done + [Trim(field)]
  {
    ScanField(done, field, quoted, []);
    assert EncodeField(field, quoted) + [] == EncodeField(field, quoted);
  }

  lemma ScanFirstField(done: seq<string>, fields: seq<string>, quoted: seq<bool>)
    requires IsQuoting(fields, quoted) && |fields| > 1
    ensures ScanFrom(Scan(done, "", false), EncodeLine(fields, quoted))
         == ScanFrom(Scan(done + [Trim(fields[0])], "", false), EncodeLine(fields[1..], quoted[1..]))
  {
    var more := EncodeLine(fields[1..], quoted[1..]);
    assert EncodeLine(fields, quoted) == EncodeField(fields[0], quoted[0]) + ([','] + more);
    ScanField(done, fields[0], quoted[0], [','] + more);
    ScanComma(done, fields[0], more);
  }

  /** Splitting any RFC 4180 encoding of a non-empty list of fields gives the list back, each field trimmed. */
  lemma SplitUndoesEncoding(fields: seq<string>, quoted: seq<bool>)
    requires IsQuoting(fields, quoted)
    ensures Split(EncodeLine(fields, quoted)) == TrimAll(fields)
  {
    ScanEncoded([], fields, quoted);
  }
}
