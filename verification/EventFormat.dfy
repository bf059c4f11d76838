/** The pipe-delimited log line: fixed-size text cells, the in-place formatter and its reader. */
module EventFormat {
  import opened Wrappers
  import opened DecimalText
  import opened Delimited

  const TEXT_CAPACITY: nat := 32
  const LOG_CAPACITY: nat := 4096
  const NUL: char := '\0'
  const PIPE: char := '|'

  // ---- Text cells

  /** What copy_text leaves in a cell: at most 31 characters of the text, the rest NUL. */
  function StoredText(value: string): (cell: string)
    ensures |cell| == TEXT_CAPACITY && cell[TEXT_CAPACITY - 1] == NUL
  {
    var length := if |value| < TEXT_CAPACITY - 1 then |value| else TEXT_CAPACITY - 1;
    value[..length] + seq(TEXT_CAPACITY - length, _ => NUL)
  }

  method CopyText(destination: array<char>, value: string)
    requires destination.Length == TEXT_CAPACITY
    modifies destination
    ensures destination[..] == StoredText(value)
  {
    forall i | 0 <= i < TEXT_CAPACITY {
      destination[i] := NUL;
    }
    var length := if |value| < TEXT_CAPACITY - 1 then |value| else TEXT_CAPACITY - 1;
    forall i | 0 <= i < length {
      destination[i] := value[i];
    }
  }

  /** The text a cell holds, as strlen delimits it. */
  function CString(cell: string): string {
    cell[..Find(cell, NUL)]
  }

  predicate IsCell(cell: string) {
    |cell| == TEXT_CAPACITY && cell[TEXT_CAPACITY - 1] == NUL
  }

  /** A cell holds any NUL-free text of up to 31 characters unchanged, and cuts a longer one there. */
  lemma StoredTextReads(value: string)
    requires '\0' !in value
    ensures CString(StoredText(value)) == if |value| <= 31 then value else value[..31]
  {
    var length := if |value| < TEXT_CAPACITY - 1 then |value| else TEXT_CAPACITY - 1;
    FindAfter(value[..length], seq(TEXT_CAPACITY - length, _ => NUL), NUL);
  }

  lemma CellTextIsShort(cell: string)
    requires IsCell(cell)
    ensures |CString(cell)| <= TEXT_CAPACITY - 1
  {
    assert cell[TEXT_CAPACITY - 1] in cell && cell[..|cell|] == cell;
  }

  // ---- Events

  datatype Event =
    | IntEvent(symbol: string, values: seq<int>)
    | DecimalEvent(symbol: string, decimals: seq<string>)
    | WideEvent(fields: seq<string>)

  ghost predicate Cells(cells: seq<string>) {
    forall i :: 0 <= i < |cells| ==> IsCell(cells[i])
  }

  ghost predicate Int64s(values: seq<int>) {
    forall i :: 0 <= i < |values| ==> -0x8000_0000_0000_0000 <= values[i] < 0x8000_0000_0000_0000
  }

  ghost predicate IsEvent(e: Event) {
    match e
    case IntEvent(symbol, values) => IsCell(symbol) && |values| == 10 && Int64s(values)
    case DecimalEvent(symbol, decimals) => IsCell(symbol) && |decimals| == 10 && Cells(decimals)
    case WideEvent(fields) => |fields| == 60 && Cells(fields)
  }

  function Texts(cells: seq<string>): seq<string> {
    seq(|cells|, i requires 0 <= i < |cells| => CString(cells[i]))
  }

  function DecimalTexts(values: seq<int>): seq<string> {
    seq(|values|, i requires 0 <= i < |values| => ToDecimal(values[i]))
  }

  function Fields(e: Event): seq<string> {
    match e
    case IntEvent(symbol, values) => [CString(symbol)] + DecimalTexts(values)
    case DecimalEvent(symbol, decimals) => [CString(symbol)] + Texts(decimals)
    case WideEvent(fields) => Texts(fields)
  }

  // ---- The line

  /** What one append does to the text written so far. */
  function AppendField(line: string, field: string): string {
    (if line != "" then line + [PIPE] else line) + field
  }

  function Body(fields: seq<string>): string {
    if fields == [] then "" else AppendField(Body(fields[..|fields| - 1]), fields[|fields| - 1])
  }

  function Line(e: Event): string {
    Body(Fields(e)) + "\n"
  }

  /** The greatest number of characters the first n fields can take. */
  function Bound(e: Event, n: nat): nat {
    match e
    case IntEvent(_, _) => if n == 0 then 0 else 31 + 21 * (n - 1)
    case _ => if n == 0 then 0 else 32 * n - 1
  }

  lemma FieldIsShort(e: Event, n: nat)
    requires IsEvent(e) && n < |Fields(e)|
    ensures |Fields(e)[n]| + (if n == 0 then 0 else 1) <= Bound(e, n + 1) - Bound(e, n)
  {
    match e {
      case IntEvent(symbol, values) =>
        if n == 0 { CellTextIsShort(symbol); } else { Int64Length(values[n - 1]); }
      case DecimalEvent(symbol, decimals) =>
        if n == 0 { CellTextIsShort(symbol); } else { CellTextIsShort(decimals[n - 1]); }
      case WideEvent(fields) => CellTextIsShort(fields[n]);
    }
  }

  lemma {:induction false} BodyIsShort(e: Event, n: nat)
    requires IsEvent(e) && n <= |Fields(e)|
    ensures |Body(Fields(e)[..n])| <= Bound(e, n)
  {
    if n > 0 {
      BodyIsShort(e, n - 1);
      FieldIsShort(e, n - 1);
      BodyGrows(Fields(e), n - 1);
    }
  }

  lemma BodyGrows(fields: seq<string>, n: nat)
    requires n < |fields|
    ensures Body(fields[..n + 1]) == AppendField(Body(fields[..n]), fields[n])
  {
    assert fields[..n + 1][..n] == fields[..n];
  }

  /** No line is longer than 242, 352 or 1920 characters, far below the buffer's 4096. */
  lemma LineIsShort(e: Event)
    requires IsEvent(e)
    ensures |Line(e)| <= match e case IntEvent(_, _) => 242 case DecimalEvent(_, _) => 352 case WideEvent(_) => 1920
  {
    BodyIsShort(e, |Fields(e)|);
    assert Fields(e)[..|Fields(e)|] == Fields(e);
  }

  // ---- The formatter, writing in place

  /** The buffer after its first |text| characters have been overwritten. */
  function Written(buffer: string, text: string): string
    requires |text| <= |buffer|
  {
    text + buffer[|text|..]
  }

  method Append(output: array<char>, position: nat, field: string) returns (end: nat)
    requires position + 1 + |field| <= output.Length
    modifies output
    ensures var text := AppendField(old(output[..position]), field);
            end == |text| <= output.Length && output[..] == Written(old(output[..]), text)
  {
    end := position;
    if end != 0 {
      output[end] := PIPE;
      end := end + 1;
    }
    forall i | 0 <= i < |field| {
      output[end + i] := field[i];
    }
    end := end + |field|;
  }

  /** One append of the n-th field of an event, which always has room. */
  method AppendNth(e: Event, n: nat, output: array<char>, position: nat, field: string, ghost start: string)
    returns (end: nat)
    requires IsEvent(e) && n < |Fields(e)| && field == Fields(e)[n]
    requires output.Length == |start| == LOG_CAPACITY
    requires position == |Body(Fields(e)[..n])| <= LOG_CAPACITY && output[..] == Written(start, Body(Fields(e)[..n]))
    modifies output
    ensures end == |Body(Fields(e)[..n + 1])| <= LOG_CAPACITY && output[..] == Written(start, Body(Fields(e)[..n + 1]))
  {
    BodyIsShort(e, n);
    BodyIsShort(e, n + 1);
    BodyGrows(Fields(e), n);
    FieldIsShort(e, n);
    assert |Fields(e)| <= 60;
    assert output[..position] == output[..][..position] == Body(Fields(e)[..n]);
    end := Append(output, position, field);
  }

  method EndLine(e: Event, output: array<char>, position: nat, ghost start: string) returns (end: nat)
    requires IsEvent(e) && output.Length == |start| == LOG_CAPACITY
    requires position == |Body(Fields(e))| <= LOG_CAPACITY && output[..] == Written(start, Body(Fields(e)))
    modifies output
    ensures end == |Line(e)| <= LOG_CAPACITY && output[..] == Written(start, Line(e))
  {
    LineIsShort(e);
    var body := Body(Fields(e));
    output[position] := '\n';
    end := position + 1;
    assert output[..] == Written(start, body)[position := '\n'] == Written(start, body + "\n");
  }

  /** The three formatters write the line at the front of the buffer and touch nothing behind it. */
  method FormatInt(e: Event, output: array<char>) returns (position: nat)
    requires IsEvent(e) && e.IntEvent? && output.Length == LOG_CAPACITY
    modifies output
    ensures position == |Line(e)| <= LOG_CAPACITY && output[..] == Written(old(output[..]), Line(e))
  {
    assert Fields(e)[..0] == [];
    position := AppendNth(e, 0, output, 0, CString(e.symbol), old(output[..]));
    for i := 0 to |e.values|
      invariant position == |Body(Fields(e)[..i + 1])| <= LOG_CAPACITY
      invariant output[..] == Written(old(output[..]), Body(Fields(e)[..i + 1]))
    {
      position := AppendNth(e, i + 1, output, position, ToDecimal(e.values[i]), old(output[..]));
    }
    assert Fields(e)[..|e.values| + 1] == Fields(e);
    position := EndLine(e, output, position, old(output[..]));
  }

  method FormatDecimal(e: Event, output: array<char>) returns (position: nat)
    requires IsEvent(e) && e.DecimalEvent? && output.Length == LOG_CAPACITY
    modifies output
    ensures position == |Line(e)| <= LOG_CAPACITY && output[..] == Written(old(output[..]), Line(e))
  {
    assert Fields(e)[..0] == [];
    position := AppendNth(e, 0, output, 0, CString(e.symbol), old(output[..]));
    for i := 0 to |e.decimals|
      invariant position == |Body(Fields(e)[..i + 1])| <= LOG_CAPACITY
      invariant output[..] == Written(old(output[..]), Body(Fields(e)[..i + 1]))
    {
      position := AppendNth(e, i + 1, output, position, CString(e.decimals[i]), old(output[..]));
    }
    assert Fields(e)[..|e.decimals| + 1] == Fields(e);
    position := EndLine(e, output, position, old(output[..]));
  }

  method FormatWide(e: Event, output: array<char>) returns (position: nat)
    requires IsEvent(e) && e.WideEvent? && output.Length == LOG_CAPACITY
    modifies output
    ensures position == |Line(e)| <= LOG_CAPACITY && output[..] == Written(old(output[..]), Line(e))
  {
    position := 0;
    for i := 0 to |e.fields|
      invariant position == |Body(Fields(e)[..i])| <= LOG_CAPACITY
      invariant output[..] == Written(old(output[..]), Body(Fields(e)[..i]))
    {
      position := AppendNth(e, i, output, position, CString(e.fields[i]), old(output[..]));
    }
    assert Fields(e)[..|e.fields|] == Fields(e);
    position := EndLine(e, output, position, old(output[..]));
  }

  // ---- What the line says

  function DropLeadingEmpty(fields: seq<string>): seq<string> {
    if fields != [] && fields[0] == "" then DropLeadingEmpty(fields[1..]) else fields
  }

  lemma {:induction false} DropAppend(fields: seq<string>, f: string)
    ensures DropLeadingEmpty(fields + [f]) ==
            if DropLeadingEmpty(fields) == [] then DropLeadingEmpty([f]) else DropLeadingEmpty(fields) + [f]
  {
    if fields == [] {
      assert fields + [f] == [f];
    } else if fields[0] == "" {
      assert (fields + [f])[1..] == fields[1..] + [f];
      DropAppend(fields[1..], f);
    }
  }

  lemma {:induction false} DropIsShorter(fields: seq<string>)
    ensures |DropLeadingEmpty(fields)| <= |fields|
    ensures fields != [] && fields[0] == "" ==> |DropLeadingEmpty(fields)| < |fields|
    ensures DropLeadingEmpty(fields) == fields[|fields| - |DropLeadingEmpty(fields)|..]
    ensures DropLeadingEmpty(fields) != [] ==> DropLeadingEmpty(fields)[0] != ""
  {
    if fields != [] && fields[0] == "" {
      DropIsShorter(fields[1..]);
    }
  }

  /** The written text is the '|'-join of the fields with leading empty ones removed. */
  lemma {:induction false} BodyIsJoin(fields: seq<string>)
    ensures Body(fields) == Join(DropLeadingEmpty(fields), PIPE)
    decreases |fields|
  {
    if fields != [] {
      var init, f := fields[..|fields| - 1], fields[|fields| - 1];
      BodyIsJoin(init);
      assert init + [f] == fields;
      DropAppend(init, f);
      var kept := DropLeadingEmpty(init);
      DropIsShorter(init);
      if kept != [] {
        JoinNonempty(kept, PIPE);
        JoinAppend(kept, f, PIPE);
      } else if f == "" {
        assert DropLeadingEmpty([f]) == DropLeadingEmpty([f][1..]) == [];
      }
    }
  }

  /** Splitting the text at '|' gives the fields back exactly when no field holds a '|' and the first
    one is not empty (or there is only one). */
  lemma SplitRecovers(fields: seq<string>)
    requires fields != []
    ensures SplitOn(Body(fields), PIPE) == fields <==> Free(fields, PIPE) && (|fields| == 1 || fields[0] != "")
  {
    BodyIsJoin(fields);
    JoinOfSplit(Body(fields), PIPE);
    var kept := DropLeadingEmpty(fields);
    DropIsShorter(fields);
    if Free(fields, PIPE) {
      if kept == [] {
        assert Body(fields) == "";
        FindAfter("", "", PIPE);
        assert SplitOn("", PIPE) == [""];
        if |fields| == 1 {
          assert fields == [""];
        }
      } else {
        assert Free(kept, PIPE);
        SplitOfJoin(kept, PIPE);
      }
    }
  }

  /** The reader of a log line of ten integers. */
  function ParseInts(texts: seq<string>): Option<seq<int>> {
    if texts == [] then Some([]) else
      match (ParseDecimal(texts[0]), ParseInts(texts[1..]))
      case (Some(v), Some(vs)) => Some([v] + vs)
      case _ => None
  }

  function ParseIntLine(line: string): Option<(string, seq<int>)>
    requires line != ""
  {
    var fields := SplitOn(line[..|line| - 1], '|');
    if |fields| != 11 then None else
      match ParseInts(fields[1..])
      case None => None
      case Some(values) => Some((fields[0], values))
  }

  lemma {:induction false} ParseIntsInverts(values: seq<int>)
    ensures ParseInts(DecimalTexts(values)) == Some(values)
  {
    if values != [] {
      ParseIntsInverts(values[1..]);
      assert DecimalTexts(values)[1..] == DecimalTexts(values[1..]);
      ParseInvertsToDecimal(values[0]);
      assert [values[0]] + values[1..] == values;
    }
  }

  lemma DecimalHasNo(v: int, c: char)
    requires !IsDigit(c) && c != '-'
    ensures c !in ToDecimal(v)
  {
    var digits := Digits(if v < 0 then -v else v);
    assert forall i :: 0 <= i < |digits| ==> IsDigit(digits[i]);
  }

  lemma IntFieldsHaveNoPipe(e: Event)
    requires e.IntEvent?
    ensures Free(Fields(e), PIPE) <==> PIPE !in CString(e.symbol)
  {
    FreeOfCons(CString(e.symbol), DecimalTexts(e.values), PIPE);
    FreeDecimalTexts(e.values, PIPE);
  }

  /** If the first of several separator-free fields is empty, the line has a piece too few. */
  lemma LineWithoutSymbol(fields: seq<string>)
    requires |fields| > 1 && Free(fields, PIPE) && fields[0] == "" && fields[1] != ""
    ensures |SplitOn(Body(fields), PIPE)| == |fields| - 1
  {
    BodyIsJoin(fields);
    assert DropLeadingEmpty(fields) == fields[1..];
    assert Free(fields[1..], PIPE);
    SplitOfJoin(fields[1..], PIPE);
  }

  /** Reading a formatted line recovers the symbol and all ten values, over all 64-bit integers, if and
    only if the symbol is not empty and holds no '|'. */
  lemma IntLineRoundTrip(e: Event)
    requires IsEvent(e) && e.IntEvent?
    ensures ParseIntLine(Line(e)) == Some((CString(e.symbol), e.values)) <==>
            CString(e.symbol) != "" && '|' !in CString(e.symbol)
  {
    var fields := Fields(e);
    var read := SplitOn(Body(fields), PIPE);
    assert Line(e)[..|Line(e)| - 1] == Body(fields);
    SplitRecovers(fields);
    IntFieldsHaveNoPipe(e);
    if CString(e.symbol) != "" && PIPE !in CString(e.symbol) {
      assert fields[1..] == DecimalTexts(e.values);
      ParseIntsInverts(e.values);
    } else if PIPE in CString(e.symbol) {
      JoinOfSplit(Body(fields), PIPE);
      assert read[0] != CString(e.symbol);
    } else {
      assert fields[1] == ToDecimal(e.values[0]);
      LineWithoutSymbol(fields);
    }
  }

  /** Splitting a formatted line gives back the symbol and the ten decimals, in order, if and only if none of
    them holds a '|' and the symbol is not empty. */
  lemma DecimalLineRoundTrip(e: Event)
    requires IsEvent(e) && e.DecimalEvent?
    ensures Line(e) != ""
    ensures var pieces := SplitOn(Line(e)[..|Line(e)| - 1], '|');
            && |pieces| == 11 && pieces[0] == CString(e.symbol)
            && (forall i :: 0 <= i < 10 ==> pieces[i + 1] == CString(e.decimals[i])) <==>
            && CString(e.symbol) != "" && '|' !in CString(e.symbol)
            && forall i :: 0 <= i < 10 ==> '|' !in CString(e.decimals[i])
  {
    var fields := Fields(e);
    assert Line(e)[..|Line(e)| - 1] == Body(fields);
    SplitRecovers(fields);
    DecimalPieces(e, SplitOn(Body(fields), '|'));
    DecimalsFree(e);
  }

  lemma DecimalPieces(e: Event, pieces: seq<string>)
    requires IsEvent(e) && e.DecimalEvent?
    ensures pieces == Fields(e) <==>
            |pieces| == 11 && pieces[0] == CString(e.symbol)
            && forall i :: 0 <= i < 10 ==> pieces[i + 1] == CString(e.decimals[i])
  {
    var fields := Fields(e);
    assert fields[0] == CString(e.symbol) && forall i :: 0 <= i < 10 ==> fields[i + 1] == CString(e.decimals[i]);
    if |pieces| == 11 && pieces[0] == CString(e.symbol)
       && forall i :: 0 <= i < 10 ==> pieces[i + 1] == CString(e.decimals[i])
    {
      forall j | 0 <= j < 11 ensures pieces[j] == fields[j] {
        if j > 0 {
          assert pieces[(j - 1) + 1] == CString(e.decimals[j - 1]);
        }
      }
    }
  }

  lemma DecimalsFree(e: Event)
    requires IsEvent(e) && e.DecimalEvent?
    ensures Free(Fields(e), '|') <==>
            '|' !in CString(e.symbol) && forall i :: 0 <= i < 10 ==> '|' !in CString(e.decimals[i])
  {
    FreeOfCons(CString(e.symbol), Texts(e.decimals), '|');
    FreeTexts(e.decimals, '|');
  }

  lemma FreeTexts(cells: seq<string>, sep: char)
    ensures Free(Texts(cells), sep) <==> forall i :: 0 <= i < |cells| ==> sep !in CString(cells[i])
  {
    var texts := Texts(cells);
    assert forall i :: 0 <= i < |cells| ==> texts[i] == CString(cells[i]);
  }

  lemma FreeDecimalTexts(values: seq<int>, sep: char)
    requires !IsDigit(sep) && sep != '-'
    ensures Free(DecimalTexts(values), sep)
  {
    forall i | 0 <= i < |values| ensures sep !in DecimalTexts(values)[i] {
      DecimalHasNo(values[i], sep);
    }
  }

  /** Splitting a formatted line gives back the sixty texts, in order, if and only if none of them holds a '|'
    and the first is not empty. */
  lemma WideLineRoundTrip(e: Event)
    requires IsEvent(e) && e.WideEvent?
    ensures Line(e) != ""
    ensures var pieces := SplitOn(Line(e)[..|Line(e)| - 1], '|');
            |pieces| == 60 && (forall i :: 0 <= i < 60 ==> pieces[i] == CString(e.fields[i])) <==>
            CString(e.fields[0]) != "" && forall i :: 0 <= i < 60 ==> '|' !in CString(e.fields[i])
  {
    var fields := Fields(e);
    assert Line(e)[..|Line(e)| - 1] == Body(fields);
    SplitRecovers(fields);
    assert forall i :: 0 <= i < 60 ==> fields[i] == CString(e.fields[i]);
  }

  // ---- Many lines

  /** The lines of several events, one after the other. */
  function Log(events: seq<Event>): string {
    if events == [] then "" else Line(events[0]) + Log(events[1..])
  }

  /** The lines without their ends, and what follows the last end. */
  function LogPieces(events: seq<Event>): seq<string> {
    if events == [] then [""] else [Line(events[0])[..|Line(events[0])| - 1]] + LogPieces(events[1..])
  }

  /** No text of the event holds a newline. */
  ghost predicate OneLine(e: Event) {
    match e
    case IntEvent(symbol, _) => '\n' !in CString(symbol)
    case DecimalEvent(symbol, decimals) =>
      '\n' !in CString(symbol) && forall i :: 0 <= i < |decimals| ==> '\n' !in CString(decimals[i])
    case WideEvent(fields) => forall i :: 0 <= i < |fields| ==> '\n' !in CString(fields[i])
  }

  lemma AppendHolds(line: string, field: string, c: char)
    requires c != PIPE
    ensures c in AppendField(line, field) <==> c in line || c in field
  {
  }

  lemma FreeOfAppend(init: seq<string>, f: string, sep: char)
    ensures Free(init + [f], sep) <==> Free(init, sep) && sep !in f
  {
    var pieces := init + [f];
    assert pieces[|init|] == f && forall i :: 0 <= i < |init| ==> pieces[i] == init[i];
  }

  lemma {:induction false} BodyHolds(fields: seq<string>, c: char)
    requires c != PIPE
    ensures c !in Body(fields) <==> Free(fields, c)
  {
    if fields != [] {
      var init, f := fields[..|fields| - 1], fields[|fields| - 1];
      BodyHolds(init, c);
      AppendHolds(Body(init), f, c);
      assert fields == init + [f];
      FreeOfAppend(init, f, c);
    }
  }

  lemma LineIsOneLine(e: Event)
    ensures OneLine(e) <==> '\n' !in Body(Fields(e))
  {
    var fields := Fields(e);
    BodyHolds(fields, '\n');
    match e {
      case IntEvent(symbol, values) =>
        FreeOfCons(CString(symbol), DecimalTexts(values), '\n');
        FreeDecimalTexts(values, '\n');
      case DecimalEvent(symbol, decimals) =>
        FreeOfCons(CString(symbol), Texts(decimals), '\n');
        FreeTexts(decimals, '\n');
      case WideEvent(texts) => FreeTexts(texts, '\n');
    }
  }

  lemma {:induction false} LogIsJoin(events: seq<Event>)
    ensures LogPieces(events) != [] && Log(events) == Join(LogPieces(events), '\n')
    ensures Free(LogPieces(events), '\n') <==> forall i :: 0 <= i < |events| ==> OneLine(events[i])
  {
    if events != [] {
      var e, rest := events[0], LogPieces(events[1..]);
      LogIsJoin(events[1..]);
      LineIsOneLine(e);
      assert Line(e)[..|Line(e)| - 1] == Body(Fields(e));
      JoinCons(Body(Fields(e)), rest, '\n');
      FreeOfCons(Body(Fields(e)), rest, '\n');
      assert forall i :: 0 <= i < |events| ==> events[i] == if i == 0 then e else events[1..][i - 1];
    }
  }

  lemma FreeOfCons(f: string, rest: seq<string>, sep: char)
    ensures Free([f] + rest, sep) <==> sep !in f && Free(rest, sep)
  {
    var pieces := [f] + rest;
    assert pieces[0] == f && forall i :: 0 <= i < |rest| ==> pieces[i + 1] == rest[i];
    if sep !in f && Free(rest, sep) {
      FreeCons(f, rest, sep);
    }
  }

  /** Lines written one after the other split at their ends if and only if no text holds a newline. */
  lemma LogSplits(events: seq<Event>)
    ensures SplitOn(Log(events), '\n') == LogPieces(events) <==>
            forall i :: 0 <= i < |events| ==> OneLine(events[i])
  {
    LogIsJoin(events);
    JoinOfSplit(Log(events), '\n');
    if Free(LogPieces(events), '\n') {
      SplitOfJoin(LogPieces(events), '\n');
    }
  }
}
