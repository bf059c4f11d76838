/** The hand-written pieces of the Schema Registry client: JSON escaping of the registration body, the
  scanner for the id of a response, and the Confluent frame. */
module SchemaRegistry {
  import opened Wrappers
  import opened Words
  import opened DecimalText
  import Delimited

  const QUOTE: char := '\"'
  const BACKSLASH: char := '\\'

  // ---- Escaping

  function EscapeChar(c: char): (s: string)
    ensures s != ""
  {
    match c
    case '\"' => "\\\""
    case '\\' => "\\\\"
    case '\n' => "\\n"
    case '\r' => "\\r"
    case '\t' => "\\t"
    case _ => [c]
  }

  function JsonEscape(value: string): string {
    if value == "" then "" else EscapeChar(value[0]) + JsonEscape(value[1..])
  }

  /** The program's escaping loop. */
  method EscapeText(value: string) returns (escaped: string)
    ensures escaped == JsonEscape(value)
  {
    escaped := "";
    assert value[0..] == value;
    for i := 0 to |value|
      invariant escaped + JsonEscape(value[i..]) == JsonEscape(value)
    {
      assert value[i..][1..] == value[i + 1..];
      ghost var rest := JsonEscape(value[i + 1..]);
      assert escaped + (EscapeChar(value[i]) + rest) == (escaped + EscapeChar(value[i])) + rest;
      escaped := escaped + EscapeChar(value[i]);
    }
  }

  const BODY_HEAD: string := "{\"schemaType\":\"PROTOBUF\",\"schema\":\""

  function RegistrationBody(schema: string): string {
    BODY_HEAD + JsonEscape(schema) + "\"}"
  }

  // ---- Reading a JSON string, section 7 of RFC 8259

  /** One character of a JSON string: itself, or the code of a \u escape. */
  datatype Unit = Plain(c: char) | Code(n: nat)

  function HexValue(c: char): Option<nat> {
    if '0' <= c <= '9' then Some((c - '0') as nat)
    else if 'a' <= c <= 'f' then Some(10 + (c - 'a') as nat)
    else if 'A' <= c <= 'F' then Some(10 + (c - 'A') as nat)
    else None
  }

  function Hex4(s: string): Option<nat> {
    if |s| < 4 then None else
      match (HexValue(s[0]), HexValue(s[1]), HexValue(s[2]), HexValue(s[3]))
      case (Some(a), Some(b), Some(c), Some(d)) => Some(((a * 16 + b) * 16 + c) * 16 + d)
      case _ => None
  }

  /** The unit that the escape sequence at the front of s stands for, and its length. */
  function ScanEscape(s: string): Option<(Unit, nat)> {
    if |s| < 2 then None else
      match s[1]
      case '\"' => Some((Plain('\"'), 2))
      case '\\' => Some((Plain('\\'), 2))
      case '/' => Some((Plain('/'), 2))
      case 'b' => Some((Code(8), 2))
      case 'f' => Some((Code(12), 2))
      case 'n' => Some((Plain('\n'), 2))
      case 'r' => Some((Plain('\r'), 2))
      case 't' => Some((Plain('\t'), 2))
      case 'u' => (match Hex4(s[2..]) case None => None case Some(n) => Some((Code(n), 6)))
      case _ => None
  }

  /** Reads a string whose opening quote has been consumed: its units and what follows the closing quote. */
  function ScanString(s: string): (r: Option<(seq<Unit>, string)>)
    ensures r.Some? ==> |r.value.1| < |s|
  {
    if s == "" then None
    else if s[0] == QUOTE then Some(([], s[1..]))
    else if s[0] < ' ' then None
    else
      var first := if s[0] == BACKSLASH then ScanEscape(s) else Some((Plain(s[0]), 1));
      match first
      case None => None
      case Some((unit, n)) =>
        if n > |s| || n == 0 then None else
          match ScanString(s[n..])
          case None => None
          case Some((units, rest)) => Some(([unit] + units, rest))
  }

  function Units(text: string): seq<Unit> {
    seq(|text|, i requires 0 <= i < |text| => Plain(text[i]))
  }

  predicate Escapable(c: char) {
    c >= ' ' || c == '\n' || c == '\r' || c == '\t'
  }

  /** Scanning escaped text gives back the text and stops at the closing quote exactly when the text has
    no control character other than newline, carriage return and tab. */
  lemma {:induction false} ScanOfEscape(text: string, rest: string)
    ensures ScanString(JsonEscape(text) + [QUOTE] + rest) ==
            if forall i :: 0 <= i < |text| ==> Escapable(text[i]) then Some((Units(text), rest)) else None
  {
    var line := JsonEscape(text) + [QUOTE] + rest;
    if text == "" {
      assert line[1..] == rest;
    } else {
      var c, tail := text[0], JsonEscape(text[1..]) + [QUOTE] + rest;
      ScanOfEscape(text[1..], rest);
      assert line == EscapeChar(c) + tail;
      ScanOneChar(c, tail);
      assert forall i :: 0 <= i < |text| ==> text[i] == if i == 0 then c else text[1..][i - 1];
      assert Units(text) == [Plain(c)] + Units(text[1..]);
    }
  }

  lemma ScanOneChar(c: char, tail: string)
    ensures ScanString(EscapeChar(c) + tail) ==
            if !Escapable(c) then None
            else match ScanString(tail) case None => None case Some((units, rest)) => Some(([Plain(c)] + units, rest))
  {
    var line := EscapeChar(c) + tail;
    assert line[|EscapeChar(c)|..] == tail;
  }

  /** The schema of a registration body reads back as the text registered, and the reader stops at the
    quote the program added, exactly when the text has no other control character. */
  lemma RegistrationRoundTrip(schema: string)
    ensures RegistrationBody(schema)[..|BODY_HEAD|] == BODY_HEAD
    ensures ScanString(RegistrationBody(schema)[|BODY_HEAD|..]) == Some((Units(schema), "}")) <==>
            forall i :: 0 <= i < |schema| ==> Escapable(schema[i])
  {
    ScanOfEscape(schema, "}");
    assert RegistrationBody(schema)[|BODY_HEAD|..] == JsonEscape(schema) + [QUOTE] + "}";
  }

  function ReadString(s: string): (r: Option<(seq<Unit>, string)>)
    ensures r.Some? ==> |r.value.1| < |s|
  {
    if s != "" && s[0] == '\"' then ScanString(s[1..]) else None
  }

  /** Reads a member whose value is a string, and what follows it. */
  function ReadMemberText(s: string): (r: Option<((seq<Unit>, seq<Unit>), string)>)
    ensures r.Some? ==> |r.value.1| < |s|
  {
    match ReadString(s)
    case None => None
    case Some((name, rest)) =>
      if rest == "" || rest[0] != ':' then None else
        match ReadString(rest[1..])
        case None => None
        case Some((value, after)) => Some(((name, value), after))
  }

  /** Reads members up to the closing brace, which must end the text. */
  function ReadMembers(s: string): Option<seq<(seq<Unit>, seq<Unit>)>>
    decreases |s|
  {
    match ReadMemberText(s)
    case None => None
    case Some((member, rest)) =>
      if rest == "}" then Some([member])
      else if rest == "" || rest[0] != ',' then None
      else
        match ReadMembers(rest[1..])
        case None => None
        case Some(members) => Some([member] + members)
  }

  /** Reads an object of string members without white space. */
  function ReadObject(s: string): Option<seq<(seq<Unit>, seq<Unit>)>> {
    if s != "" && s[0] == '{' then ReadMembers(s[1..]) else None
  }

  predicate NeedsNoEscape(text: string) {
    forall i :: 0 <= i < |text| ==> EscapeChar(text[i]) == [text[i]] && Escapable(text[i])
  }

  lemma {:induction false} EscapeOfPlain(text: string)
    requires NeedsNoEscape(text)
    ensures JsonEscape(text) == text
  {
    if text != "" {
      EscapeOfPlain(text[1..]);
      assert [text[0]] + text[1..] == text;
    }
  }

  /** Reading a quoted text. */
  lemma ReadsQuoted(text: string, rest: string)
    ensures ReadString([QUOTE] + (JsonEscape(text) + ([QUOTE] + rest))) ==
            if forall i :: 0 <= i < |text| ==> Escapable(text[i]) then Some((Units(text), rest)) else None
  {
    ScanOfEscape(text, rest);
    Reassociate(JsonEscape(text), [QUOTE], rest);
    assert ([QUOTE] + (JsonEscape(text) + ([QUOTE] + rest)))[1..] == JsonEscape(text) + [QUOTE] + rest;
  }

  /** A member with a text value, as it is written. */
  function TextMember(name: string, text: string, rest: string): string {
    [QUOTE] + (name + ([QUOTE] + (":" + ([QUOTE] + (JsonEscape(text) + ([QUOTE] + rest))))))
  }

  lemma ReadsTextMember(name: string, text: string, rest: string)
    requires NeedsNoEscape(name)
    ensures ReadMemberText(TextMember(name, text, rest)) ==
            if forall i :: 0 <= i < |text| ==> Escapable(text[i])
            then Some(((Units(name), Units(text)), rest)) else None
  {
    var value := [QUOTE] + (JsonEscape(text) + ([QUOTE] + rest));
    EscapeOfPlain(name);
    ReadsQuoted(name, ":" + value);
    ReadsQuoted(text, rest);
    assert (":" + value)[1..] == value;
  }

  lemma MemberHead(name: string, behind: string)
    ensures [QUOTE] + (name + ([QUOTE] + (":" + ([QUOTE] + behind)))) ==
            ([QUOTE] + (name + ([QUOTE] + (":" + [QUOTE])))) + behind
  {
  }

  lemma SchemaMember(schema: string)
    ensures TextMember("schema", schema, "}") == "\"schema\":\"" + (JsonEscape(schema) + "\"}")
  {
    MemberHead("schema", JsonEscape(schema) + ([QUOTE] + "}"));
    assert [QUOTE] + ("schema" + ([QUOTE] + (":" + [QUOTE]))) == "\"schema\":\"";
  }

  lemma TypeMember(kind: string, rest: string)
    ensures "{" + TextMember("schemaType", kind, "," + rest) ==
            "{\"schemaType\":\"" + (JsonEscape(kind) + ("\"," + rest))
  {
    var behind := JsonEscape(kind) + ([QUOTE] + ("," + rest));
    var head := [QUOTE] + ("schemaType" + ([QUOTE] + (":" + [QUOTE])));
    MemberHead("schemaType", behind);
    assert [QUOTE] + ("," + rest) == "\"," + rest;
    Reassociate("{", head, behind);
    assert "{" + head == "{\"schemaType\":\"";
  }

  lemma BodyHead(rest: string)
    ensures "{\"schemaType\":\"" + ("PROTOBUF" + ("\"," + ("\"schema\":\"" + rest))) == BODY_HEAD + rest
  {
    Reassociate("\",", "\"schema\":\"", rest);
    Reassociate("PROTOBUF", "\"," + "\"schema\":\"", rest);
    Reassociate("{\"schemaType\":\"", "PROTOBUF" + ("\"," + "\"schema\":\""), rest);
    assert "{\"schemaType\":\"" + ("PROTOBUF" + ("\"," + "\"schema\":\"")) == BODY_HEAD;
  }

  lemma LettersNeedNoEscape(text: string)
    requires forall i :: 0 <= i < |text| ==> 'A' <= text[i] <= 'Z' || 'a' <= text[i] <= 'z'
    ensures NeedsNoEscape(text)
  {
  }

  lemma NamesNeedNoEscape()
    ensures NeedsNoEscape("schemaType") && NeedsNoEscape("PROTOBUF") && NeedsNoEscape("schema")
  {
    LettersNeedNoEscape("schemaType");
    LettersNeedNoEscape("PROTOBUF");
    LettersNeedNoEscape("schema");
  }

  lemma BodyIsMembers(kind: string, schema: string)
    requires kind == "PROTOBUF" && NeedsNoEscape(kind)
    ensures RegistrationBody(schema) ==
            "{" + TextMember("schemaType", kind, "," + TextMember("schema", schema, "}"))
  {
    var value := JsonEscape(schema) + "\"}";
    SchemaMember(schema);
    EscapeOfPlain(kind);
    TypeMember(kind, TextMember("schema", schema, "}"));
    BodyHead(value);
    Reassociate(BODY_HEAD, JsonEscape(schema), "\"}");
  }

  /** What a reader makes of the two members, for any such texts. */
  lemma ReadsTwoMembers(name1: string, text1: string, name2: string, text2: string)
    requires NeedsNoEscape(name1) && NeedsNoEscape(text1) && NeedsNoEscape(name2)
    ensures forall i :: 0 <= i < |text1| ==> Escapable(text1[i])
    ensures ReadObject("{" + TextMember(name1, text1, "," + TextMember(name2, text2, "}"))) ==
            if forall i :: 0 <= i < |text2| ==> Escapable(text2[i])
            then Some([(Units(name1), Units(text1)), (Units(name2), Units(text2))]) else None
  {
    var last := TextMember(name2, text2, "}");
    var members := TextMember(name1, text1, "," + last);
    ReadsTextMember(name1, text1, "," + last);
    ReadsTextMember(name2, text2, "}");
    assert ("," + last)[1..] == last && ("{" + members)[1..] == members;
    var read := if forall i :: 0 <= i < |text2| ==> Escapable(text2[i])
      then Some([(Units(name2), Units(text2))]) else None;
    assert ReadMembers(last) == read;
    var first, second := (Units(name1), Units(text1)), (Units(name2), Units(text2));
    assert [first] + [second] == [first, second];
  }

  /** The registration body is an object of two members: the schema type, which is PROTOBUF, and the schema,
    which is the text registered; exactly when the text has no other control character. */
  lemma RegistrationReads(schema: string)
    ensures ReadObject(RegistrationBody(schema)) ==
              Some([(Units("schemaType"), Units("PROTOBUF")), (Units("schema"), Units(schema))]) <==>
            forall i :: 0 <= i < |schema| ==> Escapable(schema[i])
  {
    var name1, text1, name2 := "schemaType", "PROTOBUF", "schema";
    NamesNeedNoEscape();
    BodyIsMembers(text1, schema);
    ReadsTwoMembers(name1, text1, name2, schema);
  }

  // ---- The id of a response

  /** s starts with "id", quotes included. */
  predicate StartsWithId(s: string) {
    |s| >= 4 && s[0] == QUOTE && ClosesId(s[1..])
  }

  /** s starts with id and a closing quote. */
  predicate ClosesId(s: string) {
    |s| >= 3 && s[0] == 'i' && s[1] == 'd' && s[2] == QUOTE
  }

  /** The text from the first "id" on. */
  function FromId(s: string): Option<string> {
    if s == "" then None else if StartsWithId(s) then Some(s) else FromId(s[1..])
  }

  datatype HttpResult = HttpResult(status: int, body: string)

  datatype IdError = BadStatus | NoId | NotANumber | OutOfRange

  predicate IsSpace(c: char) {
    c == ' ' || '\t' <= c <= '\r'
  }

  function SkipSpace(s: string): string {
    if s != "" && IsSpace(s[0]) then SkipSpace(s[1..]) else s
  }

  /** The longest prefix of digits. */
  function DigitPrefix(s: string): (d: string)
    ensures AllDigits(d)
  {
    if s != "" && IsDigit(s[0]) then [s[0]] + DigitPrefix(s[1..]) else ""
  }

  /** std::stoul: white space, an optional sign, decimal digits; a minus sign negates modulo 2^64. */
  function Stoul(text: string): Result<nat, IdError> {
    Converted(SkipSpace(text))
  }

  function Converted(s: string): Result<nat, IdError> {
    var signed := s != "" && (s[0] == '+' || s[0] == '-');
    var digits := DigitPrefix(if signed then s[1..] else s);
    if digits == "" then Err(NotANumber)
    else if Value(digits) >= WORD then Err(OutOfRange)
    else if signed && s[0] == '-' then Ok((WORD - Value(digits)) % WORD)
    else Ok(Value(digits))
  }

  const UINT32: nat := 0x1_0000_0000

  /** The conversion to uint32_t. */
  function Narrow(r: Result<nat, IdError>): Result<nat, IdError> {
    match r
    case Err(e) => Err(e)
    case Ok(n) => Ok(n % UINT32)
  }

  /** The number behind the first colon from the first "id" on.  Without a colon there, the program
    converts the whole body. */
  function ResponseId(result: HttpResult): Result<nat, IdError> {
    if result.status < 200 || result.status >= 300 then Err(BadStatus) else
      match FromId(result.body)
      case None => Err(NoId)
      case Some(found) =>
        var colon := Delimited.Find(found, ':');
        Narrow(Stoul(if colon < |found| then found[colon + 1..] else result.body))
  }

  /** "id", quotes included, occurs in the text. */
  ghost predicate HasId(body: string) {
    exists i :: IdAt(body, i)
  }

  predicate IdAt(s: string, i: int) {
    0 <= i <= |s| - 4 && s[i..i + 4] == "\"id\""
  }

  lemma {:induction false} FromIdFinds(s: string)
    ensures FromId(s).Some? <==> HasId(s)
  {
    if s != "" {
      FromIdFinds(s[1..]);
      StartsHere(s);
      assert StartsWithId(s) <==> IdAt(s, 0);
      forall i | 0 < i ensures IdAt(s, i) <==> IdAt(s[1..], i - 1) {
        if i <= |s| - 4 {
          assert s[1..][i - 1..i - 1 + 4] == s[i..i + 4];
        }
      }
      if HasId(s[1..]) {
        var i :| IdAt(s[1..], i);
        assert IdAt(s, i + 1);
      }
    }
  }

  lemma StartsHere(s: string)
    ensures StartsWithId(s) <==> |s| >= 4 && s[0..4] == "\"id\""
  {
    if |s| >= 4 {
      var start := s[0..4];
      assert start[0] == s[0] && start[1] == s[1] && start[2] == s[2] && start[3] == s[3];
    }
  }

  /** Any status outside 200 to 299 is refused as such, and any other body without "id" for that reason. */
  lemma ResponseIdErrors(result: HttpResult)
    ensures ResponseId(result) == Err(BadStatus) <==> result.status < 200 || result.status > 299
    ensures ResponseId(result) == Err(NoId) <==> 200 <= result.status <= 299 && !HasId(result.body)
  {
    FromIdFinds(result.body);
  }

  lemma {:induction false} DigitPrefixOf(digits: string, post: string)
    requires AllDigits(digits) && (post == "" || !IsDigit(post[0]))
    ensures DigitPrefix(digits + post) == digits
  {
    if digits == "" {
      assert digits + post == post;
    } else {
      assert (digits + post)[1..] == digits[1..] + post;
      DigitPrefixOf(digits[1..], post);
      assert [digits[0]] + digits[1..] == digits;
    }
  }

  predicate AllSpace(s: string) {
    forall i :: 0 <= i < |s| ==> IsSpace(s[i])
  }

  lemma {:induction false} SkipSpaceOf(space: string, rest: string)
    requires AllSpace(space) && (rest == "" || !IsSpace(rest[0]))
    ensures SkipSpace(space + rest) == rest
  {
    if space == "" {
      assert space + rest == rest;
    } else {
      assert (space + rest)[1..] == space[1..] + rest;
      SkipSpaceOf(space[1..], rest);
    }
  }

  lemma StoulOfDigits(space: string, sign: string, d: string, post: string)
    requires AllSpace(space) && (sign == "" || sign == "+" || sign == "-")
    requires d != "" && AllDigits(d) && (post == "" || !IsDigit(post[0]))
    ensures Stoul(space + (sign + (d + post))) ==
            if Value(d) >= WORD then Err(OutOfRange)
            else Ok(if sign == "-" then (WORD - Value(d)) % WORD else Value(d))
  {
    var digits := d + post;
    assert digits != "" && digits[0] == d[0];
    SignThenDigits(sign, digits);
    SkipSpaceOf(space, sign + digits);
    ConvertedDigits(sign, d, post);
  }

  lemma ConvertedDigits(sign: string, d: string, post: string)
    requires sign == "" || sign == "+" || sign == "-"
    requires d != "" && AllDigits(d) && (post == "" || !IsDigit(post[0]))
    ensures Converted(sign + (d + post)) ==
            if Value(d) >= WORD then Err(OutOfRange)
            else Ok(if sign == "-" then (WORD - Value(d)) % WORD else Value(d))
  {
    var digits := d + post;
    assert digits != "" && digits[0] == d[0];
    SignThenDigits(sign, digits);
    DigitPrefixOf(d, post);
  }

  lemma SignThenDigits(sign: string, digits: string)
    requires (sign == "" || sign == "+" || sign == "-") && digits != "" && IsDigit(digits[0])
    ensures (sign + digits)[0] == if sign == "" then digits[0] else sign[0]
    ensures sign == "" ==> sign + digits == digits
    ensures sign != "" ==> (sign + digits)[1..] == digits
  {
  }

  /** White space, a sign or none, and digits read as the number, modulo 2^64 below zero. */
  lemma StoulReads(space: string, sign: string, n: nat, post: string)
    requires AllSpace(space) && (sign == "" || sign == "+" || sign == "-") && (post == "" || !IsDigit(post[0]))
    ensures Stoul(space + (sign + (Digits(n) + post))) ==
            if n >= WORD then Err(OutOfRange) else Ok(if sign == "-" then (WORD - n) % WORD else n)
  {
    ValueOfDigits(n);
    StoulOfDigits(space, sign, Digits(n), post);
  }

  /** White space and text that starts with neither sign nor digit is not a number. */
  lemma StoulRefuses(space: string, rest: string)
    requires AllSpace(space) && rest != "" && !IsSpace(rest[0]) && !IsDigit(rest[0])
    requires rest[0] != '+' && rest[0] != '-'
    ensures Stoul(space + rest) == Err(NotANumber)
  {
    SkipSpaceOf(space, rest);
  }

  lemma ResponseIdConverts(status: int, body: string, key: string, value: string)
    requires 200 <= status < 300 && ':' !in key && FromId(body) == Some(key + (":" + value))
    ensures ResponseId(HttpResult(status, body)) == Narrow(Stoul(value))
  {
    Delimited.FindAfter(key, ":" + value, ':');
    assert Delimited.Find(":" + value, ':') == 0;
    assert (key + (":" + value))[|key| + 1..] == value;
  }

  /** What the program returns is the number behind the first colon after the first "id", cut to 32 bits;
    so it is that number exactly when it is below 2^32. */
  lemma ResponseIdReads(status: int, body: string, key: string, space: string, n: nat, post: string)
    requires 200 <= status < 300 && ':' !in key && AllSpace(space) && (post == "" || !IsDigit(post[0]))
    requires FromId(body) == Some(key + (":" + (space + (Digits(n) + post))))
    ensures ResponseId(HttpResult(status, body)) == if n < WORD then Ok(n % UINT32) else Err(OutOfRange)
    ensures ResponseId(HttpResult(status, body)) == Ok(n) <==> n < 0x1_0000_0000
  {
    StoulReads(space, "", n, post);
    assert "" + (Digits(n) + post) == Digits(n) + post;
    ResponseIdConverts(status, body, key, space + (Digits(n) + post));
    CutTo32Bits(n);
  }

  lemma CutTo32Bits(n: nat)
    ensures n % UINT32 == n <==> n < UINT32
  {
  }

  // ---- Which text can hide the id

  lemma {:induction false} SkipPlain(x: string, y: string)
    requires QUOTE !in x
    ensures FromId(x + y) == FromId(y)
  {
    if x == "" {
      assert x + y == y;
    } else {
      assert (x + y)[1..] == x[1..] + y;
      SkipPlain(x[1..], y);
    }
  }

  lemma SkipQuote(y: string)
    requires !ClosesId(y)
    ensures FromId([QUOTE] + y) == FromId(y)
  {
    assert ([QUOTE] + y)[1..] == y;
  }

  /** The first character of escaped text is never a quote, and is the text's own unless it is a backslash. */
  lemma EscapeStart(s: string, tail: string)
    requires s != ""
    ensures JsonEscape(s) != "" && (JsonEscape(s) + tail)[0] != QUOTE
    ensures (JsonEscape(s) + tail)[0] != BACKSLASH ==>
              (JsonEscape(s) + tail)[0] == s[0] && (JsonEscape(s) + tail)[1..] == JsonEscape(s[1..]) + tail
  {
    var rest := JsonEscape(s[1..]) + tail;
    assert JsonEscape(s) + tail == EscapeChar(s[0]) + rest;
    if EscapeChar(s[0]) == [s[0]] {
      assert ([s[0]] + rest)[1..] == rest;
    }
  }

  lemma EscapeOfId()
    ensures JsonEscape("id") == "id"
  {
    assert "id"[1..] == "d" && "d"[1..] == "";
    assert JsonEscape("d") == "d";
  }

  /** Escaped text before a quote or the end closes an id only if it is id. */
  lemma EscapedClosesId(s: string, tail: string)
    requires tail == "" || (tail[0] == QUOTE && (|tail| == 1 || tail[1] != 'i'))
    ensures ClosesId(JsonEscape(s) + tail) <==> s == "id" && tail != ""
  {
    var t := JsonEscape(s) + tail;
    EscapeOfId();
    if s == "" {
      assert t == tail;
    } else {
      EscapeStart(s, tail);
      if s[0] == 'i' && |s| > 1 {
        EscapeStart(s[1..], tail);
        if s[1] == 'd' && |s| > 2 {
          EscapeStart(s[1..][1..], tail);
        } else if s[1] == 'd' {
          assert s == "id";
        }
      } else if s[0] == 'i' {
        assert t[1..] == JsonEscape("") + tail == tail;
      }
    }
  }

  lemma IdByCharacters(s: string)
    ensures s == "id" <==> |s| == 2 && s[0] == 'i' && s[1] == 'd'
  {
  }

  predicate EndsInQuotedId(s: string) {
    |s| >= 3 && s[|s| - 3] == QUOTE && s[|s| - 2] == 'i' && s[|s| - 1] == 'd'
  }

  /** Escaped text never contains "id", quotes included. */
  lemma {:induction false} EscapedHasNoId(s: string)
    ensures FromId(JsonEscape(s)) == None
  {
    if s != "" {
      var rest := JsonEscape(s[1..]);
      EscapedHasNoId(s[1..]);
      if s[0] == QUOTE {
        assert !ClosesId(rest) by {
          EscapedClosesId(s[1..], "");
          assert rest + "" == rest;
        }
        SkipEscapedQuote(rest);
      } else {
        SkipPlain(EscapeChar(s[0]), rest);
      }
    }
  }

  lemma SkipEscapedQuote(rest: string)
    requires !ClosesId(rest)
    ensures FromId(EscapeChar(QUOTE) + rest) == FromId(rest)
  {
    assert EscapeChar(QUOTE) + rest == [BACKSLASH] + ([QUOTE] + rest);
    SkipPlain([BACKSLASH], [QUOTE] + rest);
    SkipQuote(rest);
  }

  /** Inside a text value, up to its closing quote, "id" occurs exactly when the text ends in "id: the
    quote it brings along is escaped, but the scanner does not see that. */
  lemma {:induction false} FromIdInValue(s: string, t: string)
    requires t == "" || t[0] != 'i'
    ensures FromId(JsonEscape(s) + ([QUOTE] + t)) == if EndsInQuotedId(s) then Some("\"id\"" + t) else FromId(t)
    decreases |s|, 0
  {
    var tail := [QUOTE] + t;
    if s == "" {
      assert JsonEscape(s) + tail == tail;
      SkipQuote(t);
    } else {
      var rest := JsonEscape(s[1..]) + tail;
      assert JsonEscape(s) + tail == EscapeChar(s[0]) + rest;
      if s[0] == QUOTE {
        assert EscapeChar(QUOTE) + rest == [BACKSLASH] + ([QUOTE] + rest);
        SkipPlain([BACKSLASH], [QUOTE] + rest);
        FromIdInQuoted(s[1..], t);
        assert [QUOTE] + s[1..] == s;
      } else {
        SkipPlain(EscapeChar(s[0]), rest);
        FromIdInValue(s[1..], t);
      }
    }
  }

  /** A text value, with its quotes, brings an "id" of its own exactly when it is id or ends in "id. */
  lemma {:induction false} FromIdInQuoted(text: string, t: string)
    requires t == "" || t[0] != 'i'
    ensures FromId([QUOTE] + (JsonEscape(text) + ([QUOTE] + t))) ==
            if EndsInQuotedId([QUOTE] + text) then Some("\"id\"" + t) else FromId(t)
    decreases |text|, 1
  {
    var value := JsonEscape(text) + ([QUOTE] + t);
    EscapedClosesId(text, [QUOTE] + t);
    if text == "id" {
      EscapeOfId();
      assert ([QUOTE] + value)[1..] == value;
      assert [QUOTE] + value == "\"id\"" + t;
    } else {
      FromIdInValue(text, t);
      SkipQuote(value);
      IdByCharacters(text);
    }
  }

  // ---- The members of a response

  datatype MemberValue = Text(text: string) | Number(number: int)

  /** A member of the response, with the white space before its name, its colon and its value, and after. */
  datatype Member = Member(name: string, value: MemberValue,
                           beforeName: string, beforeColon: string, beforeValue: string, afterValue: string)

  predicate Spaced(m: Member) {
    AllSpace(m.beforeName) && AllSpace(m.beforeColon) && AllSpace(m.beforeValue) && AllSpace(m.afterValue)
  }

  /** The names of the other members: any text without quotes and colons but id itself. */
  predicate IsOther(m: Member) {
    Spaced(m) && QUOTE !in m.name && ':' !in m.name && m.name != "id"
  }

  predicate IsId(m: Member, id: nat) {
    Spaced(m) && m.name == "id" && m.value == Number(id)
  }

  function ValueText(v: MemberValue, rest: string): string {
    match v
    case Text(text) => [QUOTE] + (JsonEscape(text) + ([QUOTE] + rest))
    case Number(number) => ToDecimal(number) + rest
  }

  /** A member from its value on. */
  function FromValue(m: Member, rest: string): string {
    m.beforeValue + ValueText(m.value, m.afterValue + rest)
  }

  /** A member from behind its name on. */
  function BehindName(m: Member, rest: string): string {
    [QUOTE] + (m.beforeColon + (":" + FromValue(m, rest)))
  }

  function MemberText(m: Member, rest: string): string {
    m.beforeName + ([QUOTE] + (m.name + BehindName(m, rest)))
  }

  /** The members of a response up to the id member, and what follows. */
  function MembersText(ms: seq<Member>, last: Member, post: string): string {
    MemberText((ms + [last])[0], if ms == [] then post else "," + MembersText(ms[1..], last, post))
  }

  /** A text value that brings an "id" of its own: it is id or ends in "id. */
  predicate Offends(v: MemberValue) {
    v.Text? && EndsInQuotedId([QUOTE] + v.text)
  }

  /** A text without quotes offends only if it is id. */
  lemma QuotelessText(text: string)
    requires QUOTE !in text
    ensures Offends(Text(text)) <==> text == "id"
  {
    if |text| >= 3 {
      assert text[|text| - 3] in text;
    }
    IdByCharacters(text);
  }

  function FirstOffender(ms: seq<Member>): (k: nat)
    ensures k <= |ms|
    ensures forall i :: 0 <= i < k ==> !Offends(ms[i].value)
    ensures k < |ms| ==> Offends(ms[k].value)
  {
    if ms == [] || Offends(ms[0].value) then 0 else 1 + FirstOffender(ms[1..])
  }

  lemma SpaceIsPlain(s: string)
    requires AllSpace(s)
    ensures QUOTE !in s && ':' !in s
  {
  }

  /** The scanner passes over a member's name and colon. */
  lemma SkipName(m: Member, rest: string)
    requires IsOther(m)
    ensures FromId(MemberText(m, rest)) == FromId(ValueText(m.value, m.afterValue + rest))
  {
    var value := FromValue(m, rest);
    var y := m.name + BehindName(m, rest);
    SpaceIsPlain(m.beforeName);
    SpaceIsPlain(m.beforeColon);
    SpaceIsPlain(m.beforeValue);
    SkipPlain(m.beforeName, [QUOTE] + y);
    NameIsNotId(m.name, BehindName(m, rest));
    SkipQuote(y);
    SkipPlain(m.name, BehindName(m, rest));
    SpaceIsNotId(m.beforeColon, value);
    SkipQuote(m.beforeColon + (":" + value));
    SkipPlain(m.beforeColon, ":" + value);
    SkipPlain(":", value);
    SkipPlain(m.beforeValue, ValueText(m.value, m.afterValue + rest));
  }

  lemma NameIsNotId(name: string, behind: string)
    requires QUOTE !in name && name != "id" && behind != "" && behind[0] == QUOTE
    ensures !ClosesId(name + behind)
  {
    var y := name + behind;
    assert y[|name|] == QUOTE;
    if |name| > 2 {
      assert y[2] == name[2] && name[2] in name;
    } else if |name| == 2 {
      assert y[0] == name[0] && y[1] == name[1];
      IdByCharacters(name);
    }
  }

  lemma SpaceIsNotId(space: string, value: string)
    requires AllSpace(space)
    ensures !ClosesId(space + (":" + value))
  {
    assert (space + (":" + value))[0] == if space == "" then ':' else space[0];
  }

  lemma DecimalIsPlain(number: int)
    ensures QUOTE !in ToDecimal(number)
  {
    var d := Digits(if number < 0 then -number else number);
    assert forall i :: 0 <= i < |d| ==> IsDigit(d[i]);
  }

  /** Where the scanner gets to in one member that is followed by another. */
  lemma SkipMember(m: Member, rest: string)
    requires IsOther(m) && rest != "" && rest[0] == ','
    ensures FromId(MemberText(m, rest)) ==
            if Offends(m.value) then Some("\"id\"" + (m.afterValue + rest)) else FromId(rest)
  {
    SkipName(m, rest);
    SpaceIsPlain(m.afterValue);
    SkipPlain(m.afterValue, rest);
    match m.value {
      case Text(text) => FromIdInQuoted(text, m.afterValue + rest);
      case Number(number) =>
        DecimalIsPlain(number);
        SkipPlain(ToDecimal(number), m.afterValue + rest);
    }
  }

  lemma StopsAtId(last: Member, id: nat, post: string)
    requires IsId(last, id)
    ensures FromId(MemberText(last, post)) == Some("\"id\"" + (last.beforeColon + (":" + FromValue(last, post))))
  {
    var found := [QUOTE] + (last.name + BehindName(last, post));
    SpaceIsPlain(last.beforeName);
    SkipPlain(last.beforeName, found);
    assert found == "\"id\"" + (last.beforeColon + (":" + FromValue(last, post)));
    assert StartsWithId(found);
  }

  /** What follows the "id" that the scanner stops at. */
  function BehindId(ms: seq<Member>, last: Member, post: string): string {
    var k := FirstOffender(ms);
    if k == |ms| then last.beforeColon + (":" + FromValue(last, post))
    else ms[k].afterValue + ("," + MembersText(ms[k + 1..], last, post))
  }

  /** The first member does not matter unless it offends. */
  lemma BehindIdSkips(ms: seq<Member>, last: Member, post: string)
    requires ms != [] && !Offends(ms[0].value)
    ensures BehindId(ms, last, post) == BehindId(ms[1..], last, post)
  {
    var k, rest := FirstOffender(ms[1..]), ms[1..];
    assert FirstOffender(ms) == k + 1;
    if k < |rest| {
      assert rest[k + 1..] == ms[k + 2..] && rest[k] == ms[k + 1];
    }
  }

  /** The scanner stops at the first offending text, behind its closing quote, and without one at the id. */
  lemma {:induction false} StopsAtOffender(ms: seq<Member>, last: Member, id: nat, post: string)
    requires (forall m :: m in ms ==> IsOther(m)) && IsId(last, id)
    ensures FromId(MembersText(ms, last, post)) == Some("\"id\"" + BehindId(ms, last, post))
    decreases |ms|
  {
    if ms == [] {
      StopsAtId(last, id, post);
    } else {
      var rest := MembersText(ms[1..], last, post);
      assert (ms + [last])[0] == ms[0] && MembersText(ms, last, post) == MemberText(ms[0], "," + rest);
      SkipMember(ms[0], "," + rest);
      if !Offends(ms[0].value) {
        SkipPlain(",", rest);
        StopsAtOffender(ms[1..], last, id, post);
        BehindIdSkips(ms, last, post);
      }
    }
  }

  function Magnitude(number: int): nat {
    if number < 0 then -number else number
  }

  /** What the program makes of a member's value. */
  function Reading(v: MemberValue): Result<nat, IdError> {
    match v
    case Text(_) => Err(NotANumber)
    case Number(number) => if Magnitude(number) < WORD then Ok(number % UINT32) else Err(OutOfRange)
  }

  lemma ReadsValue(m: Member, rest: string)
    requires Spaced(m) && (rest == "" || !IsDigit(rest[0]))
    ensures Narrow(Stoul(FromValue(m, rest))) == Reading(m.value)
  {
    var post := m.afterValue + rest;
    match m.value {
      case Text(_) => StoulRefuses(m.beforeValue, ValueText(m.value, post));
      case Number(number) => ReadsNumber(m.beforeValue, number, post);
    }
  }

  lemma ReadsNumber(space: string, number: int, post: string)
    requires AllSpace(space) && (post == "" || !IsDigit(post[0]))
    ensures Narrow(Stoul(space + (ToDecimal(number) + post))) == Reading(Number(number))
  {
    var n, sign := Magnitude(number), if number < 0 then "-" else "";
    StoulReads(space, sign, n, post);
    assert ToDecimal(number) + post == sign + (Digits(n) + post);
    if n < WORD {
      NarrowOfWord(number);
    }
  }

  lemma NarrowOfWord(number: int)
    requires Magnitude(number) < WORD
    ensures number < 0 ==> (WORD + number) % WORD % UINT32 == number % UINT32
  {
    if number < 0 {
      assert (WORD + number) % WORD == WORD + number;
      assert WORD + number == UINT32 * UINT32 + number;
    }
  }

  /** The member that the program reads the id from. */
  function ReadMember(ms: seq<Member>, last: Member): Member {
    var k := FirstOffender(ms);
    if k == |ms| then last else (ms + [last])[k + 1]
  }

  lemma ReadsBehind(status: int, body: string, key: string, m: Member, rest: string)
    requires 200 <= status < 300 && ':' !in key && Spaced(m) && (rest == "" || !IsDigit(rest[0]))
    requires FromId(body) == Some(key + (":" + FromValue(m, rest)))
    ensures ResponseId(HttpResult(status, body)) == Reading(m.value)
  {
    ResponseIdConverts(status, body, key, FromValue(m, rest));
    ReadsValue(m, rest);
  }

  lemma Reassociate(a: string, b: string, c: string)
    ensures a + (b + c) == (a + b) + c
  {
  }

  /** The text from an "id" up to the colon of the member that follows. */
  function KeyUpTo(after: string, m: Member): string {
    "\"id\"" + (after + ("," + (m.beforeName + ([QUOTE] + (m.name + ([QUOTE] + m.beforeColon))))))
  }

  lemma KeyIsBeforeColon(after: string, m: Member, rest: string)
    requires AllSpace(after) && Spaced(m) && ':' !in m.name
    ensures ':' !in KeyUpTo(after, m)
    ensures "\"id\"" + (after + ("," + MemberText(m, rest))) == KeyUpTo(after, m) + (":" + FromValue(m, rest))
  {
    var value := ":" + FromValue(m, rest);
    var behind := [QUOTE] + m.beforeColon;
    Reassociate([QUOTE], m.beforeColon, value);
    Reassociate(m.name, behind, value);
    Reassociate([QUOTE], m.name + behind, value);
    var name := [QUOTE] + (m.name + behind);
    Reassociate(m.beforeName, name, value);
    Reassociate(",", m.beforeName + name, value);
    Reassociate(after, "," + (m.beforeName + name), value);
    Reassociate("\"id\"", after + ("," + (m.beforeName + name)), value);
    SpaceIsPlain(after);
    SpaceIsPlain(m.beforeName);
    SpaceIsPlain(m.beforeColon);
  }

  lemma NextMember(ms: seq<Member>, last: Member, id: nat, k: nat)
    requires (forall m :: m in ms ==> IsOther(m)) && IsId(last, id) && k < |ms|
    ensures Spaced(ms[k])
    ensures var m := (ms + [last])[k + 1]; m == (ms[k + 1..] + [last])[0] && Spaced(m) && ':' !in m.name
  {
    assert ms[k] in ms;
    if k + 1 < |ms| {
      assert (ms + [last])[k + 1] == ms[k + 1] && ms[k + 1] in ms;
    } else {
      assert (ms + [last])[k + 1] == last;
    }
  }

  /** A response as the program reads it: open is what comes before the first member, post what comes behind
    the id member. */
  lemma ResponseIdOfMembers(status: int, open: string, ms: seq<Member>, last: Member, id: nat, post: string)
    requires 200 <= status < 300 && QUOTE !in open && (post == "" || !IsDigit(post[0]))
    requires (forall m :: m in ms ==> IsOther(m)) && IsId(last, id)
    ensures ResponseId(HttpResult(status, open + MembersText(ms, last, post))) == Reading(ReadMember(ms, last).value)
  {
    SkipPlain(open, MembersText(ms, last, post));
    StopsAtOffender(ms, last, id, post);
    ReadsAtStop(status, open + MembersText(ms, last, post), ms, last, id, post);
  }

  lemma ReadsAtStop(status: int, body: string, ms: seq<Member>, last: Member, id: nat, post: string)
    requires 200 <= status < 300 && (post == "" || !IsDigit(post[0]))
    requires (forall m :: m in ms ==> IsOther(m)) && IsId(last, id)
    requires FromId(body) == Some("\"id\"" + BehindId(ms, last, post))
    ensures ResponseId(HttpResult(status, body)) == Reading(ReadMember(ms, last).value)
  {
    var k := FirstOffender(ms);
    if k == |ms| {
      ReadsLast(status, body, last, post);
    } else {
      NextMember(ms, last, id, k);
      ReadsNext(status, body, ms[k], ms[k + 1..], last, post);
    }
  }

  lemma ReadsLast(status: int, body: string, last: Member, post: string)
    requires 200 <= status < 300 && Spaced(last) && (post == "" || !IsDigit(post[0]))
    requires FromId(body) == Some("\"id\"" + (last.beforeColon + (":" + FromValue(last, post))))
    ensures ResponseId(HttpResult(status, body)) == Reading(last.value)
  {
    SpaceIsPlain(last.beforeColon);
    Reassociate("\"id\"", last.beforeColon, ":" + FromValue(last, post));
    ReadsBehind(status, body, "\"id\"" + last.beforeColon, last, post);
  }

  /** Behind an offending text the program reads the value of the next member. */
  lemma ReadsNext(status: int, body: string, offender: Member, ms: seq<Member>, last: Member, post: string)
    requires 200 <= status < 300 && Spaced(offender) && (post == "" || !IsDigit(post[0]))
    requires Spaced((ms + [last])[0]) && ':' !in (ms + [last])[0].name
    requires FromId(body) == Some("\"id\"" + (offender.afterValue + ("," + MembersText(ms, last, post))))
    ensures ResponseId(HttpResult(status, body)) == Reading((ms + [last])[0].value)
  {
    var m, rest := (ms + [last])[0], if ms == [] then post else "," + MembersText(ms[1..], last, post);
    KeyIsBeforeColon(offender.afterValue, m, rest);
    ReadsBehind(status, body, KeyUpTo(offender.afterValue, m), m, rest);
  }

  /** The program returns the id exactly when no text before it is id or ends in "id, or the first such text
    is the last member before the id, or the member behind it is a number that agrees with the id. */
  lemma ResponseIdIsRight(status: int, open: string, ms: seq<Member>, last: Member, id: nat, post: string)
    requires 200 <= status < 300 && QUOTE !in open && (post == "" || !IsDigit(post[0]))
    requires (forall m :: m in ms ==> IsOther(m)) && IsId(last, id) && id < UINT32
    ensures ResponseId(HttpResult(status, open + MembersText(ms, last, post))) == Ok(id) <==>
            var k := FirstOffender(ms);
            || k >= |ms| - 1
            || (ms[k + 1].value.Number? && Magnitude(ms[k + 1].value.number) < WORD
                && ms[k + 1].value.number % UINT32 == id)
  {
    ResponseIdOfMembers(status, open, ms, last, id, post);
    CutTo32Bits(id);
  }

  /** A response that starts with the id is read right whatever follows it. */
  lemma ResponseIdFirst(status: int, open: string, last: Member, id: nat, post: string)
    requires 200 <= status < 300 && QUOTE !in open && IsId(last, id) && id < UINT32
    requires post == "" || !IsDigit(post[0])
    ensures ResponseId(HttpResult(status, open + MemberText(last, post))) == Ok(id)
  {
    assert MembersText([], last, post) == MemberText(last, post);
    ResponseIdIsRight(status, open, [], last, id, post);
  }

  // ---- The Confluent frame

  /** Magic byte, big-endian schema id, message index 0. */
  function Prefix(id: nat): seq<byte> {
    [0, id / 0x100_0000 % 256, id / 0x1_0000 % 256, id / 0x100 % 256, id % 256, 0]
  }

  lemma PrefixCarriesId(id: nat)
    requires id < UINT32
    ensures var p := Prefix(id);
            && |p| == 6 && p[0] == 0 && p[5] == 0
            && (p[1] as nat) * 0x100_0000 + (p[2] as nat) * 0x1_0000 + (p[3] as nat) * 0x100 + (p[4] as nat) == id
  {
    assert id / 0x1_0000 == id / 0x100 / 256 && id / 0x100_0000 == id / 0x1_0000 / 256;
  }

  /** memcpy of bytes to a position of a buffer. */
  method CopyTo(target: array<byte>, position: nat, bytes: seq<byte>)
    requires position + |bytes| <= target.Length
    modifies target
    ensures target[..] == old(target[..position]) + bytes + old(target[position + |bytes|..])
  {
    forall i | 0 <= i < |bytes| {
      target[position + i] := bytes[i];
    }
  }

  /** Serialization straight behind the header; a failing serializer leaves only the header certain. */
  method FrameInPlace(framed: array<byte>, id: nat, payload: Option<seq<byte>>) returns (size: nat)
    requires framed.Length >= 6 && (payload.Some? ==> framed.Length == 6 + |payload.value|)
    modifies framed
    ensures payload.Some? ==> size == framed.Length && framed[..] == Prefix(id) + payload.value
    ensures payload.None? ==> size == 0 && framed[..6] == Prefix(id)
  {
    CopyTo(framed, 0, Prefix(id));
    if payload.None? {
      return 0;
    }
    CopyTo(framed, 6, payload.value);
    size := framed.Length;
  }

  /** Serialization into a payload buffer, then header and payload copied; a failing serializer leaves the
    frame as it was. */
  method FrameWithCopy(framed: array<byte>, buffer: array<byte>, id: nat, payload: Option<seq<byte>>)
    returns (size: nat)
    requires framed != buffer && framed.Length == 6 + buffer.Length
    requires payload.Some? ==> buffer.Length == |payload.value|
    modifies framed, buffer
    ensures payload.Some? ==> size == framed.Length && framed[..] == Prefix(id) + payload.value
    ensures payload.None? ==> size == 0 && framed[..] == old(framed[..])
  {
    if payload.None? {
      return 0;
    }
    CopyTo(buffer, 0, payload.value);
    CopyTo(framed, 0, Prefix(id));
    CopyTo(framed, 6, buffer[..]);
    size := framed.Length;
  }
}
