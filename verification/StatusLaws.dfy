// What is read as the status of a response, and where.

module StatusLaws {
  import opened Decimal
  import opened HeaderText
  import opened Pairs
  import opened ResponseText
  import opened Text
  import opened Wrappers
  import SortedMap

  // --- The status line ---

  predicate IsOneLine(s: string) {
    ':' !in s && '\r' !in s && '\n' !in s
  }

  predicate IsPlain(s: string) {
    'H' !in s && IsOneLine(s)
  }

  predicate IsWords(s: string) {
    forall i :: 0 <= i < |s| ==> s[i] == ' ' || 'A' <= s[i] < 'H' || 'H' < s[i] <= 'Z' || 'a' <= s[i] <= 'z'
  }

  lemma EarlyReasonIsWords(s: Status)
    requires IsListed(s) && s <= 302
    ensures IsWords(Reason(s))
  {
  }

  lemma MiddleReasonIsWords(s: Status)
    requires IsListed(s) && 302 < s < 500
    ensures IsWords(Reason(s))
  {
  }

  lemma LateReasonIsWords(s: Status)
    requires IsListed(s) && 500 <= s
    ensures IsWords(Reason(s))
  {
  }

  lemma ReasonIsPlain(s: Status)
    requires IsListed(s)
    ensures IsPlain(Reason(s))
  {
    if s <= 302 {
      EarlyReasonIsWords(s);
    } else if s < 500 {
      MiddleReasonIsWords(s);
    } else {
      LateReasonIsWords(s);
    }
    WordsArePlain(Reason(s));
  }

  lemma WordsArePlain(s: string)
    requires IsWords(s)
    ensures IsPlain(s)
  {
  }

  lemma PlainConcat(a: string, b: string)
    requires IsPlain(a) && IsPlain(b)
    ensures IsPlain(a + b)
  {
  }

  lemma DecimalIsPlain(n: nat)
    ensures IsPlain(DecimalText(n)) && ' ' !in DecimalText(n)
  {
    DecimalIsDigits(n);
    var t := DecimalText(n);
    assert forall c :: c in t ==> exists i :: 0 <= i < |t| && t[i] == c;
  }

  lemma StatusLineIsPlain(s: Status)
    ensures |StatusLine(s)| >= 9 && StatusLine(s)[..9] == HTTP_1_0 && IsPlain(StatusLine(s)[1..])
  {
    var code := DecimalText(Shown(s));
    ReasonIsPlain(Shown(s));
    DecimalIsPlain(Shown(s));
    PlainConcat("TTP/1.0 ", code);
    PlainConcat("TTP/1.0 " + code, " ");
    PlainConcat("TTP/1.0 " + code + " ", Reason(Shown(s)));
    StatusLineTail(code, Reason(Shown(s)));
  }

  lemma StatusLineIsOneLine(s: Status)
    ensures IsOneLine(StatusLine(s)) && |StatusLine(s)| > 0
  {
    StatusLineIsPlain(s);
    HeadAndTail(StatusLine(s));
    assert StatusLine(s)[0] == StatusLine(s)[..9][0] == 'H';
    OneLineHead('H', StatusLine(s)[1..]);
  }

  lemma OneLineHead(c: char, s: string)
    requires c == 'H' && IsOneLine(s)
    ensures IsOneLine([c] + s)
  {
  }

  lemma StatusLineTail(code: string, reason: string)
    ensures var line := HTTP_1_0 + code + " " + reason;
            line[..9] == HTTP_1_0 && line[1..] == "TTP/1.0 " + code + " " + reason
  {
  }

  // --- Where a status is read ---

  // No HTTP/1.1 starts in a printed status line, whatever follows it.
  lemma NoStartInLine(s: Status, rest: string, j: nat)
    requires j < |StatusLine(s)|
    ensures !At(StatusLine(s) + rest, HTTP_1_1, j)
  {
    var line, raw := StatusLine(s), StatusLine(s) + rest;
    StatusLineIsPlain(s);
    if j == 0 {
      AtIsSlice(raw, HTTP_1_1, 0);
      assert raw[0..9] == line[..9];
      assert raw[0..9][7] == '0';
    } else {
      assert raw[j] == line[1..][j - 1];
      assert HTTP_1_1[0] == 'H';
    }
  }

  lemma StartBehindLine(s: Status, rest: string)
    ensures Find(StatusLine(s) + rest, HTTP_1_1, 0) == Shifted(|StatusLine(s)|, Find(rest, HTTP_1_1, 0))
  {
    forall j | 0 <= j < |StatusLine(s)| ensures !At(StatusLine(s) + rest, HTTP_1_1, j) {
      NoStartInLine(s, rest, j);
    }
    FindSkips(StatusLine(s) + rest, HTTP_1_1, 0, |StatusLine(s)|);
    FindShift(StatusLine(s), rest, HTTP_1_1, 0);
  }

  // The printed line itself is read as the listed status, or as 500.
  lemma PrintedStatusRead(s: Status, rest: string)
    ensures StatusBehind(StatusLine(s) + rest, 0) == Some(Shown(s))
    ensures Find(StatusLine(s) + rest, HTTP_1_0, 0) == Some(0)
  {
    var code, after := DecimalText(Shown(s)), Reason(Shown(s)) + rest;
    var raw := StatusLine(s) + rest;
    StatusLineSplit(code, Reason(Shown(s)), rest);
    FindAfter(raw, 0, "", HTTP_1_0, code + " " + after);
    CodeRead(raw, 0, Shown(s), after);
  }

  lemma StatusLineSplit(code: string, reason: string, rest: string)
    ensures var raw, after := HTTP_1_0 + code + " " + reason + rest, code + " " + (reason + rest);
            raw[0..] == "" + HTTP_1_0 + after && |raw| >= 9 && raw[9..] == after
  {
  }

  // A decimal code up to a space is read as the status it lists.
  lemma CodeRead(raw: string, i: nat, code: nat, after: string)
    requires code <= MAX_INT && i + 9 <= |raw| && raw[i + 9..] == DecimalText(code) + " " + after
    ensures StatusBehind(raw, i) == Some(ParsedCode(code))
  {
    DecimalIsPlain(code);
    WordRead(raw, i, DecimalText(code), after);
    StoiReadsDecimal(code);
  }

  lemma WordRead(raw: string, i: nat, word: string, after: string)
    requires ' ' !in word && i + 9 <= |raw| && raw[i + 9..] == word + " " + after
    ensures StatusBehind(raw, i) == match Stoi(word) case None => None case Some(code) => Some(ParsedCode(code))
  {
    FindAfter(raw, i + 9, word, " ", after);
    Pieces(raw, i + 9, word, " ", after);
  }

  // Without a start, or without a space behind it, the status is 200.
  lemma NoStatusRead(raw: string)
    ensures Find(raw, "HTTP/1.1 ", 0).None? && Find(raw, "HTTP/1.0 ", 0).None? ==> ParsedStatus(raw) == Some(200)
    ensures forall i: nat :: Find(raw, "HTTP/1.1 ", 0) == Some(i) && Find(raw, " ", i + 9).None? ==>
              ParsedStatus(raw) == Some(200)
  {
  }

  // Only these codes are read as themselves behind an HTTP/1.1, and all others as 200.
  lemma CodesReadExactly(code: nat, after: string)
    requires code <= MAX_INT
    ensures ParsedStatus(HTTP_1_1 + (DecimalText(code) + " " + after)) == Some(
              if code in {200, 201, 202, 204, 300, 301, 302, 304, 400, 401, 403, 404, 500, 501, 502, 503} then code
              else 200)
  {
    var text := DecimalText(code) + " " + after;
    var raw := HTTP_1_1 + text;
    assert raw[0..] == "" + HTTP_1_1 + text;
    FindAfter(raw, 0, "", HTTP_1_1, text);
    assert raw[9..] == text;
    CodeRead(raw, 0, code, after);
  }

  // Only these statuses are printed as themselves, and all others as 500.
  lemma StatusesPrintedExactly(s: Status, rest: string)
    requires Find(rest, HTTP_1_1, 0).None?
    ensures ParsedStatus(StatusLine(s) + rest) == Some(
              if s in {200, 201, 202, 204, 300, 301, 302, 304, 400, 401, 403, 404, 500, 501, 502, 503} then s
              else 500)
  {
    StatusOf(s, rest);
  }

  // What stands behind a start does not depend on what stands before it.
  lemma StatusBehindShift(a: string, b: string, i: nat)
    requires i + 9 <= |b|
    ensures StatusBehind(a + b, |a| + i) == StatusBehind(b, i)
  {
    FindShift(a, b, " ", i + 9);
    var end := Find(b, " ", i + 9);
    if end.Some? {
      assert (a + b)[|a| + i + 9..|a| + end.value] == b[i + 9..end.value];
    }
  }

  // The status of a text that begins with a printed status line: the printed one if no HTTP/1.1
  // stands in the rest, and otherwise what the rest has behind the first.
  lemma StatusOf(s: Status, rest: string)
    ensures ParsedStatus(StatusLine(s) + rest) ==
            match Find(rest, HTTP_1_1, 0)
            case None => Some(Shown(s))
            case Some(i) => StatusBehind(rest, i)
  {
    match Find(rest, HTTP_1_1, 0)
    case None => StatusOfPlain(s, rest);
    case Some(i) => StatusOfQuoted(s, rest, i);
  }

  lemma StatusOfPlain(s: Status, rest: string)
    requires Find(rest, HTTP_1_1, 0).None?
    ensures ParsedStatus(StatusLine(s) + rest) == Some(Shown(s))
  {
    StartBehindLine(s, rest);
    PrintedStatusRead(s, rest);
    OlderRead(StatusLine(s) + rest, 0);
  }

  lemma StatusOfQuoted(s: Status, rest: string, i: nat)
    requires Find(rest, HTTP_1_1, 0) == Some(i)
    ensures ParsedStatus(StatusLine(s) + rest) == StatusBehind(rest, i)
  {
    StartBehindLine(s, rest);
    StatusBehindShift(StatusLine(s), rest, i);
    NewerRead(StatusLine(s) + rest, |StatusLine(s)| + i);
  }

  lemma NewerRead(raw: string, i: nat)
    requires Find(raw, HTTP_1_1, 0) == Some(i)
    ensures ParsedStatus(raw) == StatusBehind(raw, i)
  {
  }

  lemma OlderRead(raw: string, i: nat)
    requires Find(raw, HTTP_1_1, 0).None? && Find(raw, HTTP_1_0, 0) == Some(i)
    ensures ParsedStatus(raw) == StatusBehind(raw, i)
  {
  }

  // The rest of a text leaves every status as it was printed, the sixteen listed ones as
  // themselves and all others as 500, exactly if no HTTP/1.1 stands in it.
  lemma StatusesReadExactly(rest: string)
    ensures (forall s: Status :: ParsedStatus(StatusLine(s) + rest) == Some(Shown(s))) <==>
            Find(rest, HTTP_1_1, 0).None?
  {
    forall s: Status ensures ParsedStatus(StatusLine(s) + rest) ==
                             match Find(rest, HTTP_1_1, 0)
                             case None => Some(Shown(s))
                             case Some(i) => StatusBehind(rest, i)
    {
      StatusOf(s, rest);
    }
    if Find(rest, HTTP_1_1, 0).Some? {
      assert ParsedStatus(StatusLine(200) + rest) == ParsedStatus(StatusLine(404) + rest);
      assert Shown(200) != Shown(404);
    }
  }

  // --- Contents that quote a status line ---

  // The text behind the status line of a built response.
  ghost function Rest(h: Headers, content: string): string {
    CRLF + PrintedHeaders(SortedMap.Entries(h)) + CRLF + content
  }

  lemma BuiltTextRest(s: Status, h: Headers, content: string)
    ensures BuiltText(s, h, content) == StatusLine(s) + Rest(h, content)
  {
  }

  predicate HasNoH(h: Headers) {
    forall k :: k in h ==> 'H' !in k && 'H' !in h[k]
  }

  lemma {:induction false} PrintedHasNoH(headers: seq<Pair>)
    requires forall i :: 0 <= i < |headers| ==> 'H' !in headers[i].name && 'H' !in headers[i].value
    ensures 'H' !in PrintedHeaders(headers)
    decreases |headers|
  {
    if |headers| > 0 {
      PrintedHasNoH(headers[1..]);
    }
  }

  // Behind headers that cannot begin one, the first HTTP/1.1 is that of the content.
  lemma ContentStatusIsRead(s: Status, h: Headers, text: string)
    requires HasNoH(h)
    ensures ParsedStatus(BuiltText(s, h, HTTP_1_1 + text)) == StatusBehind(HTTP_1_1 + text, 0)
  {
    var entries := SortedMap.Entries(h);
    SortedMap.SortedAscends(h, h.Keys);
    assert forall i :: 0 <= i < |entries| ==> SortedMap.IsEntry(h, h.Keys, entries[i]);
    PrintedHasNoH(entries);
    var before := CRLF + PrintedHeaders(entries) + CRLF;
    var rest := before + (HTTP_1_1 + text);
    BuiltTextRest(s, h, HTTP_1_1 + text);
    assert rest[0..] == before + HTTP_1_1 + text;
    FindAfter(rest, 0, before, HTTP_1_1, text);
    StatusOf(s, rest);
    StatusBehindShift(before, HTTP_1_1 + text, 0);
  }

  // The headers of a plain text response that sets none itself.
  function PlainHeaders(content: string): Headers {
    BuiltHeaders(INITIAL_HEADERS, PLAIN_TEXT, |content|, false)
  }

  lemma PlainHeadersHaveNoH(content: string)
    ensures HasNoH(PlainHeaders(content))
  {
    DecimalIsPlain(|content|);
    FixedNamesHaveNoH();
    FixedValuesHaveNoH();
  }

  lemma FixedNamesHaveNoH()
    ensures 'H' !in "Connection" && 'H' !in CONTENT_TYPE && 'H' !in CONTENT_LENGTH
  {
  }

  lemma FixedValuesHaveNoH()
    ensures 'H' !in "keep-alive" && 'H' !in "text/plain; charset=utf-8"
  {
  }

  // A page that quotes a status line is read with that status.
  lemma QuotedStatusIsRead(rest: string)
    ensures var content := HTTP_1_1 + (DecimalText(404) + " " + rest);
            ParsedStatus(BuiltText(OK, PlainHeaders(content), content)) == Some(404)
  {
    var text := DecimalText(404) + " " + rest;
    PlainHeadersHaveNoH(HTTP_1_1 + text);
    ContentStatusIsRead(OK, PlainHeaders(HTTP_1_1 + text), text);
    assert (HTTP_1_1 + text)[9..] == text;
    CodeRead(HTTP_1_1 + text, 0, 404, rest);
  }

  // On a page that goes on with a word behind it std::stoi throws.
  lemma QuotedWordThrows(rest: string)
    ensures var content := HTTP_1_1 + ("is" + " " + rest);
            ParsedStatus(BuiltText(OK, PlainHeaders(content), content)) == None
  {
    var text := "is" + " " + rest;
    var content := HTTP_1_1 + text;
    PlainHeadersHaveNoH(content);
    ContentStatusIsRead(OK, PlainHeaders(content), text);
    assert content[9..] == "is" + " " + rest;
    FindAfter(content, 9, "is", " ", rest);
    Pieces(content, 9, "is", " ", rest);
    IsIsNoNumber();
  }

  lemma IsIsNoNumber()
    ensures Stoi("is") == None
  {
    assert SkipSpaces("is") == "is";
  }
}
