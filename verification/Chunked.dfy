// The chunked transfer coding: the client's decoder against the encoding of section 7.1 of
// RFC 9112 without extensions or trailers.

module Chunked {
  import opened Bytes
  import opened Hex
  import opened Text
  import opened Wrappers

  // Wrapped is an error of the coding alone: a size whose sum with its position does not fit in
  // 64 bits, where the program goes on with the remainder of that sum.
  datatype ChunkError = MissingSizeLine | InvalidSize | Truncated | Wrapped

  datatype Result = Ok(text: string) | Err(error: ChunkError)

  function Before(text: string, r: Result): Result {
    if r.Ok? then Ok(text + r.text) else r
  }

  // --- What the coding makes of a body from a position on ---

  // The last chunk, an error, or data of some size after the size line.
  datatype Piece = Last | Bad(error: ChunkError) | Data(start: nat, size: nat)

  function FirstPiece(body: string, pos: nat): (p: Piece)
    ensures p.Data? ==> pos + 2 <= p.start && 0 < p.size && p.start + p.size <= |body|
  {
    match LineEnd(body, pos)
    case None => Bad(MissingSizeLine)
    case Some(lineEnd) => Sized(body, lineEnd + 2, ReadHex(body[pos..lineEnd]))
  }

  function Sized(body: string, start: nat, size: Option<nat>): (p: Piece)
    ensures p.Data? ==> start == p.start && 0 < p.size && p.start + p.size <= |body|
  {
    if size.None? then Bad(InvalidSize)
    else if size.value == 0 then Last
    else if start + size.value > |body| then Bad(TooLong(start, size.value))
    else Data(start, size.value)
  }

  // Data that does not fit in the body.
  function TooLong(start: nat, size: nat): ChunkError {
    if start + size >= TWO_64 then Wrapped else Truncated
  }

  function ChunksFrom(body: string, pos: nat): Result
    decreases |body| - pos
  {
    if pos >= |body| then Ok("")
    else
      match FirstPiece(body, pos)
      case Last => Ok("")
      case Bad(error) => Err(error)
      case Data(start, size) => Before(body[start..start + size], ChunksFrom(body, start + size + 2))
  }

  function Chunks(body: string): Result {
    ChunksFrom(body, 0)
  }

  // --- The program, whose sums are kept in 64 bits ---

  // The end of the decoding, or data and the position where it goes on.
  datatype Step = Stop(result: Result) | Go(data: string, next: nat)

  function NextStep(body: string, pos: nat): Step {
    match LineEnd(body, pos)
    case None => Stop(Err(MissingSizeLine))
    case Some(lineEnd) => SizedStep(body, lineEnd + 2, ReadHex(body[pos..lineEnd]))
  }

  function SizedStep(body: string, start: nat, size: Option<nat>): Step
    requires start <= |body|
  {
    if size.None? then Stop(Err(InvalidSize))
    else if size.value == 0 then Stop(Ok(""))
    else if Wrap64(start + size.value) > |body| then Stop(Err(Truncated))
    else Go(Part(body, start, size.value), Wrap64(Wrap64(start + size.value) + 2))
  }

  // What append takes of a text from a position on, which is no more than there is.
  function Part(body: string, start: nat, size: nat): string
    requires start <= |body|
  {
    if start + size <= |body| then body[start..start + size] else body[start..]
  }

  // The result, if no more steps than the depth go on.
  function DecodedWithin(body: string, pos: nat, depth: nat): Option<Result>
    decreases depth
  {
    if pos >= |body| then Some(Ok(""))
    else
      match NextStep(body, pos)
      case Stop(r) => Some(r)
      case Go(data, next) => if depth == 0 then None else BeforeRest(data, DecodedWithin(body, next, depth - 1))
  }

  function BeforeRest(text: string, r: Option<Result>): Option<Result> {
    if r.None? then None else Some(Before(text, r.value))
  }

  // The result of the program; None stands for a recursion without an end.
  function Decoded(body: string): Option<Result> {
    DecodedWithin(body, 0, |body|)
  }

  // The size line at a position.
  method ReadSizeLine(body: string, pos: nat) returns (step: Step)
    requires pos < |body|
    ensures step == NextStep(body, pos)
  {
    var lineEnd := LineEnd(body, pos);
    if lineEnd.None? {
      return Stop(Err(MissingSizeLine));
    }
    var size := ParseHexSize(body[pos..lineEnd.value]);
    if size.None? {
      return Stop(Err(InvalidSize));
    }
    var start := lineEnd.value + 2;
    if size.value == 0 {
      return Stop(Ok(""));
    }
    if Wrap64(start + size.value) > |body| {
      return Stop(Err(Truncated));
    }
    step := Go(Part(body, start, size.value), Wrap64(Wrap64(start + size.value) + 2));
  }

  // The recursive lambda, with the text that it appends to.
  method Parse(body: string, pos: nat, depth: nat, result: string) returns (r: Option<Result>)
    ensures r == BeforeRest(result, DecodedWithin(body, pos, depth))
    decreases depth
  {
    BeforeNothing(result);
    if pos >= |body| {
      return Some(Ok(result));
    }
    var step := ReadSizeLine(body, pos);
    match step
    case Stop(end) => r := Some(Before(result, end));
    case Go(data, next) =>
      if depth == 0 {
        return None;
      }
      BeforeRestTwice(result, data, DecodedWithin(body, next, depth - 1));
      r := Parse(body, next, depth - 1, result + data);
  }

  method ParseChunkedBody(body: string) returns (r: Option<Result>)
    ensures r == Decoded(body)
  {
    r := Parse(body, 0, |body|, "");
    NothingBefore(Decoded(body));
  }

  lemma BeforeTwice(a: string, b: string, r: Result)
    ensures Before(a + b, r) == Before(a, Before(b, r))
  {
    if r.Ok? {
      Concat(a, b, r.text);
    }
  }

  lemma BeforeRestTwice(a: string, b: string, r: Option<Result>)
    ensures BeforeRest(a + b, r) == BeforeRest(a, BeforeRest(b, r))
  {
    if r.Some? {
      BeforeTwice(a, b, r.value);
    }
  }

  lemma BeforeNothing(text: string)
    ensures Before(text, Ok("")) == Ok(text)
  {
    assert text + "" == text;
  }

  lemma NothingBefore(r: Option<Result>)
    ensures BeforeRest("", r) == r
  {
    if r.Some? && r.value.Ok? {
      assert "" + r.value.text == r.value.text;
    }
  }

  // --- Where the program follows the coding ---

  // A step goes on behind a chunk and at a sum that wraps, and nowhere else.
  lemma StepExactly(body: string, pos: nat)
    requires pos < |body| < TWO_64 - 2
    ensures match FirstPiece(body, pos)
            case Last => NextStep(body, pos) == Stop(Ok(""))
            case Bad(error) => if error == Wrapped then NextStep(body, pos).Go?
                               else NextStep(body, pos) == Stop(Err(error))
            case Data(start, size) => NextStep(body, pos) == Go(body[start..start + size], start + size + 2)
  {
    var lineEnd := LineEnd(body, pos);
    if lineEnd.Some? {
      var size := ReadHex(body[pos..lineEnd.value]);
      ReadHexIsValue(body[pos..lineEnd.value]);
      SizedStepExactly(body, lineEnd.value + 2, size);
    }
  }

  lemma SizedStepExactly(body: string, start: nat, size: Option<nat>)
    requires start <= |body| < TWO_64 - 2 && (size.Some? ==> size.value < TWO_64)
    ensures match Sized(body, start, size)
            case Last => SizedStep(body, start, size) == Stop(Ok(""))
            case Bad(error) => if error == Wrapped then SizedStep(body, start, size).Go?
                               else SizedStep(body, start, size) == Stop(Err(error))
            case Data(_, n) => SizedStep(body, start, size) == Go(body[start..start + n], start + n + 2)
  {
    if size.Some? && start + size.value >= TWO_64 {
      assert Wrap64(start + size.value) == start + size.value - TWO_64;
    }
  }

  // A body in which no sum wraps is decoded as the coding says.
  lemma {:induction false} DecodesCoding(body: string, pos: nat, depth: nat)
    requires |body| < TWO_64 - 2 && |body| <= pos + depth
    requires ChunksFrom(body, pos) != Err(Wrapped)
    ensures DecodedWithin(body, pos, depth) == Some(ChunksFrom(body, pos))
    decreases depth
  {
    if pos < |body| && FirstPiece(body, pos).Data? {
      var p := FirstPiece(body, pos);
      ChunkDecoded(body, pos, depth, body[p.start..p.start + p.size], p.start + p.size + 2);
      DecodesCoding(body, p.start + p.size + 2, depth - 1);
    } else {
      EndDecoded(body, pos, depth);
    }
  }

  lemma EndDecoded(body: string, pos: nat, depth: nat)
    requires |body| < TWO_64 - 2 && ChunksFrom(body, pos) != Err(Wrapped)
    requires pos < |body| ==> !FirstPiece(body, pos).Data?
    ensures DecodedWithin(body, pos, depth) == Some(ChunksFrom(body, pos))
  {
    if pos < |body| {
      StepExactly(body, pos);
    }
  }

  // Behind a chunk both go on in the same way.
  lemma ChunkDecoded(body: string, pos: nat, depth: nat, data: string, next: nat)
    requires pos < |body| < TWO_64 - 2 && FirstPiece(body, pos).Data? && depth > 0
    requires var p := FirstPiece(body, pos);
             data == body[p.start..p.start + p.size] && next == p.start + p.size + 2
    ensures ChunksFrom(body, next) == Err(Wrapped) ==> ChunksFrom(body, pos) == Err(Wrapped)
    ensures DecodedWithin(body, next, depth - 1) == Some(ChunksFrom(body, next)) ==>
              DecodedWithin(body, pos, depth) == Some(ChunksFrom(body, pos))
  {
    StepExactly(body, pos);
    assert ChunksFrom(body, pos) == Before(data, ChunksFrom(body, next));
    assert DecodedWithin(body, pos, depth) == BeforeRest(data, DecodedWithin(body, next, depth - 1));
  }

  lemma DecodedIsChunks(body: string)
    requires |body| < TWO_64 - 2 && Chunks(body) != Err(Wrapped)
    ensures Decoded(body) == Some(Chunks(body))
  {
    DecodesCoding(body, 0, |body|);
  }

  lemma DecodedIsChunksIf(body: string, text: string)
    requires Chunks(body) == Ok(text)
    ensures |body| < TWO_64 - 2 ==> Decoded(body) == Some(Ok(text))
  {
    if |body| < TWO_64 - 2 {
      DecodedIsChunks(body);
    }
  }

  // --- Where the program ends ---

  lemma {:induction false} DeeperIsSame(body: string, pos: nat, depth: nat, more: nat)
    requires depth <= more && DecodedWithin(body, pos, depth).Some?
    ensures DecodedWithin(body, pos, more) == DecodedWithin(body, pos, depth)
    decreases depth
  {
    if pos < |body| && NextStep(body, pos).Go? {
      DeeperIsSame(body, NextStep(body, pos).next, depth - 1, more - 1);
    }
  }

  // A chain of positions ends within so many steps.
  predicate EndsWithin(next: nat -> Option<nat>, pos: nat, depth: nat)
    decreases depth
  {
    next(pos).None? || (depth > 0 && EndsWithin(next, next(pos).value, depth - 1))
  }

  lemma {:induction false} EndsDeeper(next: nat -> Option<nat>, pos: nat, depth: nat)
    requires EndsWithin(next, pos, depth)
    ensures EndsWithin(next, pos, depth + 1)
    decreases depth
  {
    if next(pos).Some? {
      EndsDeeper(next, next(pos).value, depth - 1);
    }
  }

  // The positions on the way to an end that takes just so many steps are as many positions.
  lemma {:induction false} Visited(next: nat -> Option<nat>, pos: nat, depth: nat) returns (visited: set<nat>)
    requires EndsWithin(next, pos, depth) && (depth > 0 ==> !EndsWithin(next, pos, depth - 1))
    ensures |visited| == depth && forall p :: p in visited ==> next(p).Some? && EndsWithin(next, p, depth)
    decreases depth
  {
    if depth == 0 {
      return {};
    }
    var rest := Visited(next, next(pos).value, depth - 1);
    forall p | p in rest ensures EndsWithin(next, p, depth) {
      EndsDeeper(next, p, depth - 1);
    }
    visited := rest + {pos};
  }

  lemma {:induction false} SmallNumbers(numbers: set<nat>, n: nat)
    requires forall k :: k in numbers ==> k < n
    ensures |numbers| <= n
    decreases n
  {
    if n == 0 {
      assert numbers == {};
    } else {
      SmallNumbers(numbers - {n - 1}, n - 1);
    }
  }

  // A chain that leaves only positions below n ends within n steps, if it ends.
  lemma {:induction false} EndsSoon(next: nat -> Option<nat>, pos: nat, depth: nat, n: nat)
    requires forall p: nat :: next(p).Some? ==> p < n
    requires EndsWithin(next, pos, depth)
    ensures EndsWithin(next, pos, if depth < n then depth else n)
    decreases depth
  {
    if depth > 0 && EndsWithin(next, pos, depth - 1) {
      EndsSoon(next, pos, depth - 1, n);
      if depth < n {
        EndsDeeper(next, pos, depth - 1);
      }
    } else {
      var visited := Visited(next, pos, depth);
      SmallNumbers(visited, n);
    }
  }

  // The position of the next call, if there is one.
  function NextCall(body: string): nat -> Option<nat> {
    (pos: nat) => if pos >= |body| || NextStep(body, pos).Stop? then None else Some(NextStep(body, pos).next)
  }

  lemma {:induction false} DecodedEnds(body: string, pos: nat, depth: nat)
    ensures DecodedWithin(body, pos, depth).Some? <==> EndsWithin(NextCall(body), pos, depth)
    decreases depth
  {
    if depth > 0 && pos < |body| && NextStep(body, pos).Go? {
      DecodedEnds(body, NextStep(body, pos).next, depth - 1);
    }
  }

  lemma EndsInTime(body: string, pos: nat, depth: nat)
    requires DecodedWithin(body, pos, depth).Some?
    ensures DecodedWithin(body, pos, |body|) == DecodedWithin(body, pos, depth)
  {
    var least := if depth < |body| then depth else |body|;
    DecodedEnds(body, pos, depth);
    EndsSoon(NextCall(body), pos, depth, |body|);
    DecodedEnds(body, pos, least);
    DeeperIsSame(body, pos, least, depth);
    DeeperIsSame(body, pos, least, |body|);
  }

  // The recursion ends exactly if it ends within as many steps as the body is long, and then
  // with the same result.
  lemma EndsExactly(body: string, pos: nat)
    ensures (exists depth :: DecodedWithin(body, pos, depth).Some?) <==> DecodedWithin(body, pos, |body|).Some?
    ensures forall depth: nat :: DecodedWithin(body, pos, depth).Some? ==>
                              DecodedWithin(body, pos, depth) == DecodedWithin(body, pos, |body|)
  {
    forall depth: nat | DecodedWithin(body, pos, depth).Some?
      ensures DecodedWithin(body, pos, |body|) == DecodedWithin(body, pos, depth)
    {
      EndsInTime(body, pos, depth);
    }
  }

  // --- The encoding ---

  // A chunk with its size as it is written: in hexadecimal, of either case and any length.
  datatype Chunk = Chunk(size: string, data: string)

  predicate IsSize(text: string, n: nat) {
    |text| > 0 && ReadHex(text) == Some(n)
  }

  predicate IsChunk(c: Chunk) {
    |c.data| > 0 && IsSize(c.size, |c.data|)
  }

  predicate AreChunks(chunks: seq<Chunk>) {
    forall i :: 0 <= i < |chunks| ==> IsChunk(chunks[i])
  }

  function SizeOf(c: Chunk): nat {
    |c.size| + 2 + |c.data| + 2
  }

  function EncodedChunk(c: Chunk): (text: string)
    ensures |text| == SizeOf(c)
  {
    c.size + CRLF + c.data + CRLF
  }

  // The chunks, and the last chunk with a size of zeros.
  function Encoded(chunks: seq<Chunk>, last: string): string {
    EncodedChunks(chunks) + (last + CRLF + CRLF)
  }

  function Flat(chunks: seq<Chunk>): string {
    if |chunks| == 0 then "" else chunks[0].data + Flat(chunks[1..])
  }

  // The size printed by the program's own hexadecimal form is one.
  lemma PrintedSize(n: nat)
    requires n < TWO_64
    ensures IsSize(HexText(n), n)
  {
    HexTextIsHex(n);
    HexRoundTrip(n);
  }

  lemma NoCrInSize(text: string, n: nat)
    requires IsSize(text, n)
    ensures '\r' !in text
  {
    ReadHexIsValue(text);
    assert forall i :: 0 <= i < |text| ==> DigitValue(text[i]).Some?;
  }

  // A size line is read as its number.
  lemma SizeLine(body: string, pos: nat, text: string, n: nat, after: string)
    requires pos <= |body| && body[pos..] == text + CRLF + after
    requires IsSize(text, n)
    ensures var start := pos + |text| + 2;
            FirstPiece(body, pos) ==
            if n == 0 then Last else if n > |after| then Bad(TooLong(start, n)) else Data(start, n)
  {
    NoCrInSize(text, n);
    FindAfter(body, pos, text, CRLF, after);
    LineEndIsFind(body, pos);
    Pieces(body, pos, text, CRLF, after);
  }

  // A whole chunk stands at a position.
  predicate ChunkAt(body: string, pos: nat, c: Chunk) {
    var start := pos + |c.size| + 2;
    && FirstPiece(body, pos) == Data(start, |c.data|)
    && start + |c.data| + 2 <= |body| && body[start..start + |c.data|] == c.data
  }

  // How far these chunks reach.
  function LengthOf(chunks: seq<Chunk>): nat {
    if |chunks| == 0 then 0 else SizeOf(chunks[0]) + LengthOf(chunks[1..])
  }

  predicate ChunksAt(body: string, pos: nat, chunks: seq<Chunk>)
    decreases |chunks|
  {
    |chunks| == 0 ||
    (ChunkAt(body, pos, chunks[0]) && ChunksAt(body, pos + SizeOf(chunks[0]), chunks[1..]))
  }

  // Chunks that stand one behind the other are taken off, and the decoding goes on at their end.
  lemma {:induction false} ChunksRead(body: string, pos: nat, chunks: seq<Chunk>)
    requires ChunksAt(body, pos, chunks)
    ensures ChunksFrom(body, pos) == Before(Flat(chunks), ChunksFrom(body, pos + LengthOf(chunks)))
    decreases |chunks|
  {
    if |chunks| == 0 {
      BeforeAll(chunks, ChunksFrom(body, pos));
    } else {
      var next := pos + SizeOf(chunks[0]);
      ChunkRead(body, pos, chunks[0]);
      ChunksRead(body, next, chunks[1..]);
      OneBefore(chunks, ChunksFrom(body, pos), ChunksFrom(body, next), ChunksFrom(body, pos + LengthOf(chunks)));
    }
  }

  lemma OneBefore(chunks: seq<Chunk>, all: Result, rest: Result, end: Result)
    requires |chunks| > 0 && all == Before(chunks[0].data, rest) && rest == Before(Flat(chunks[1..]), end)
    ensures all == Before(Flat(chunks), end)
  {
    BeforeAll(chunks, end);
  }

  lemma ChunkRead(body: string, pos: nat, c: Chunk)
    requires ChunkAt(body, pos, c)
    ensures ChunksFrom(body, pos) == Before(c.data, ChunksFrom(body, pos + SizeOf(c)))
  {
  }

  lemma BeforeAll(chunks: seq<Chunk>, r: Result)
    ensures |chunks| == 0 ==> Before(Flat(chunks), r) == r
    ensures |chunks| > 0 ==> Before(Flat(chunks), r) == Before(chunks[0].data, Before(Flat(chunks[1..]), r))
  {
    if |chunks| > 0 {
      BeforeTwice(chunks[0].data, Flat(chunks[1..]), r);
    } else if r.Ok? {
      assert "" + r.text == r.text;
    }
  }

  // An encoded chunk stands where it was put, whatever it contains.
  lemma ChunkFound(body: string, pos: nat, c: Chunk, after: string)
    requires pos <= |body| && body[pos..] == EncodedChunk(c) + after
    requires IsChunk(c)
    ensures ChunkAt(body, pos, c)
    ensures var next := pos + SizeOf(c);
            next <= |body| && body[next..] == after
  {
    ChunkPieces(c, after);
    SizeLine(body, pos, c.size, |c.data|, c.data + CRLF + after);
    Pieces(body, pos, c.size + CRLF, c.data, CRLF + after);
    Pieces(body, pos, EncodedChunk(c), "", after);
  }

  lemma ChunkPieces(c: Chunk, after: string)
    ensures EncodedChunk(c) + after == c.size + CRLF + (c.data + CRLF + after)
    ensures EncodedChunk(c) + after == (c.size + CRLF) + c.data + (CRLF + after)
    ensures EncodedChunk(c) + after == EncodedChunk(c) + "" + after
  {
  }

  function EncodedChunks(chunks: seq<Chunk>): string {
    if |chunks| == 0 then "" else EncodedChunk(chunks[0]) + EncodedChunks(chunks[1..])
  }

  lemma {:induction false} ChunksFound(body: string, pos: nat, chunks: seq<Chunk>, after: string)
    requires AreChunks(chunks)
    requires pos <= |body| && body[pos..] == EncodedChunks(chunks) + after
    ensures ChunksAt(body, pos, chunks)
    ensures pos + LengthOf(chunks) <= |body| && body[pos + LengthOf(chunks)..] == after
    decreases |chunks|
  {
    if |chunks| > 0 {
      var rest := EncodedChunks(chunks[1..]);
      Concat(EncodedChunk(chunks[0]), rest, after);
      ChunkFound(body, pos, chunks[0], rest + after);
      ChunksFound(body, pos + SizeOf(chunks[0]), chunks[1..], after);
    } else {
      assert "" + after == after;
    }
  }

  // Encoded chunks are decoded to their data and what follows them.
  lemma EncodedRead(body: string, pos: nat, chunks: seq<Chunk>, after: string)
    requires AreChunks(chunks)
    requires pos <= |body| && body[pos..] == EncodedChunks(chunks) + after
    ensures var next := pos + LengthOf(chunks);
            && next <= |body| && body[next..] == after
            && ChunksFrom(body, pos) == Before(Flat(chunks), ChunksFrom(body, next))
  {
    ChunksFound(body, pos, chunks, after);
    ChunksRead(body, pos, chunks);
  }

  // The decoder inverts the encoding and ignores all that follows the last chunk.
  lemma ChunkedRoundTrip(chunks: seq<Chunk>, last: string, rest: string)
    requires AreChunks(chunks) && IsSize(last, 0)
    ensures var body := Encoded(chunks, last) + rest;
            && Chunks(body) == Ok(Flat(chunks))
            && (|body| < TWO_64 - 2 ==> Decoded(body) == Some(Ok(Flat(chunks))))
  {
    var body := Encoded(chunks, last) + rest;
    var after := last + CRLF + (CRLF + rest);
    LastChunkApart(EncodedChunks(chunks), last, rest);
    assert body[0..] == body;
    EncodedRead(body, 0, chunks, after);
    LastRead(body, LengthOf(chunks), last, CRLF + rest);
    BeforeNothing(Flat(chunks));
    DecodedIsChunksIf(body, Flat(chunks));
  }

  lemma LastChunkApart(encoded: string, last: string, rest: string)
    ensures encoded + (last + CRLF + CRLF) + rest == encoded + (last + CRLF + (CRLF + rest))
  {
  }

  lemma LastRead(body: string, pos: nat, last: string, rest: string)
    requires pos <= |body| && body[pos..] == last + CRLF + rest
    requires IsSize(last, 0)
    ensures ChunksFrom(body, pos) == Ok("")
  {
    SizeLine(body, pos, last, 0, rest);
  }

  // --- Bodies that are cut short ---

  // The number of chunks that are whole in the first k characters.
  function WholeChunks(chunks: seq<Chunk>, k: nat): nat {
    if |chunks| == 0 || k < SizeOf(chunks[0]) then 0
    else 1 + WholeChunks(chunks[1..], k - SizeOf(chunks[0]))
  }

  lemma {:induction false} WholeReach(chunks: seq<Chunk>, k: nat)
    ensures var n := WholeChunks(chunks, k);
            && n <= |chunks| && LengthOf(chunks[..n]) <= k
            && (n < |chunks| ==> k - LengthOf(chunks[..n]) < SizeOf(chunks[n]))
    decreases |chunks|
  {
    if |chunks| > 0 && k >= SizeOf(chunks[0]) {
      var k' := k - SizeOf(chunks[0]);
      var n := WholeChunks(chunks[1..], k');
      WholeReach(chunks[1..], k');
      FirstOf(chunks, n);
    }
  }

  lemma FirstOf(chunks: seq<Chunk>, n: nat)
    requires n < |chunks|
    ensures chunks[..n + 1][0] == chunks[0] && chunks[..n + 1][1..] == chunks[1..][..n]
    ensures chunks[n + 1..] == chunks[1..][n..]
  {
  }

  lemma {:induction false} EncodedParts(chunks: seq<Chunk>, n: nat)
    requires n <= |chunks|
    ensures EncodedChunks(chunks) == EncodedChunks(chunks[..n]) + EncodedChunks(chunks[n..])
    ensures |EncodedChunks(chunks[..n])| == LengthOf(chunks[..n])
    decreases n
  {
    if n == 0 {
      assert chunks[0..] == chunks;
      assert "" + EncodedChunks(chunks) == EncodedChunks(chunks);
    } else {
      EncodedParts(chunks[1..], n - 1);
      FirstOf(chunks, n - 1);
      Concat(EncodedChunk(chunks[0]), EncodedChunks(chunks[1..][..n - 1]), EncodedChunks(chunks[n..]));
    }
  }

  // The whole chunks come first in what is left of a cut encoding.
  lemma CutText(chunks: seq<Chunk>, last: string, n: nat, k: nat)
    requires n <= |chunks| && LengthOf(chunks[..n]) <= k <= |Encoded(chunks, last)|
    ensures var k' := k - LengthOf(chunks[..n]);
            && k' <= |Encoded(chunks[n..], last)|
            && Encoded(chunks, last)[..k] == EncodedChunks(chunks[..n]) + Encoded(chunks[n..], last)[..k']
  {
    EncodedParts(chunks, n);
    Concat(EncodedChunks(chunks[..n]), EncodedChunks(chunks[n..]), last + CRLF + CRLF);
    CutConcat(EncodedChunks(chunks[..n]), Encoded(chunks[n..], last), k);
    var whole := EncodedChunks(chunks[..n]);
    assert k == |whole| ==> whole[..k] + Encoded(chunks[n..], last)[..0] == whole;
  }

  // What the first k characters of an encoding decode to: the whole chunks so far, if the cut is
  // at a chunk's end or inside the line end behind its data, and otherwise an error.
  function CutResult(chunks: seq<Chunk>, last: string, k: nat): Result {
    WholeReach(chunks, k);
    var n := WholeChunks(chunks, k);
    var length := LengthOf(chunks[..n]);
    Before(Flat(chunks[..n]), CutAtFirst(chunks[n..], last, k - length, length))
  }

  // The same for a cut before the end of the first chunk, at some position in the body.
  function CutAtFirst(chunks: seq<Chunk>, last: string, k: nat, pos: nat): Result {
    if k == 0 then Ok("")
    else if |chunks| > 0 then CutChunk(chunks[0], k, pos)
    else if k < |last| + 2 then Err(MissingSizeLine)
    else Ok("")
  }

  function CutChunk(c: Chunk, k: nat, pos: nat): Result {
    if k < |c.size| + 2 then Err(MissingSizeLine)
    else if k < |c.size| + 2 + |c.data| then Err(TooLong(pos + |c.size| + 2, |c.data|))
    else Ok(c.data)
  }

  // Every encoding that is cut somewhere.
  lemma CutBody(chunks: seq<Chunk>, last: string, k: nat)
    requires AreChunks(chunks) && IsSize(last, 0)
    requires k <= |Encoded(chunks, last)|
    ensures Chunks(Encoded(chunks, last)[..k]) == CutResult(chunks, last, k)
    ensures |Encoded(chunks, last)| < TWO_64 - 2 ==>
              Decoded(Encoded(chunks, last)[..k]) == Some(CutResult(chunks, last, k))
  {
    var n := WholeChunks(chunks, k);
    WholeReach(chunks, k);
    var whole, rest, k' := chunks[..n], chunks[n..], k - LengthOf(chunks[..n]);
    CutText(chunks, last, n, k);
    CutRead(Encoded(chunks, last)[..k], whole, rest, last, k');
    if |Encoded(chunks, last)| < TWO_64 - 2 {
      CutDoesNotWrap(chunks, last, k);
      DecodedIsChunks(Encoded(chunks, last)[..k]);
    }
  }

  lemma CutRead(body: string, whole: seq<Chunk>, rest: seq<Chunk>, last: string, k: nat)
    requires AreChunks(whole) && AreChunks(rest) && IsSize(last, 0)
    requires if |rest| > 0 then k < SizeOf(rest[0]) else k <= |last| + 4
    requires k <= |Encoded(rest, last)| && body == EncodedChunks(whole) + Encoded(rest, last)[..k]
    ensures Chunks(body) == Before(Flat(whole), CutAtFirst(rest, last, k, LengthOf(whole)))
  {
    assert body[0..] == body;
    EncodedRead(body, 0, whole, Encoded(rest, last)[..k]);
    CutRest(body, LengthOf(whole), rest, last, k);
  }

  // What is left of a cut encoding behind its whole chunks.
  lemma CutRest(body: string, pos: nat, chunks: seq<Chunk>, last: string, k: nat)
    requires AreChunks(chunks) && IsSize(last, 0)
    requires if |chunks| > 0 then k < SizeOf(chunks[0]) else k <= |last| + 4
    requires k <= |Encoded(chunks, last)|
    requires pos <= |body| && body[pos..] == Encoded(chunks, last)[..k]
    ensures ChunksFrom(body, pos) == CutAtFirst(chunks, last, k, pos)
  {
    if k == 0 {
    } else if |chunks| == 0 {
      assert Encoded(chunks, last) == last + CRLF + CRLF;
      CutLastChunk(body, pos, last, k);
    } else {
      Concat(EncodedChunk(chunks[0]), EncodedChunks(chunks[1..]), last + CRLF + CRLF);
      CutConcat(EncodedChunk(chunks[0]), Encoded(chunks[1..], last), k);
      CutInChunk(body, pos, chunks[0], k);
    }
  }

  lemma CutLastChunk(body: string, pos: nat, last: string, k: nat)
    requires IsSize(last, 0)
    requires 0 < k <= |last| + 4 && pos <= |body| && body[pos..] == (last + CRLF + CRLF)[..k]
    ensures ChunksFrom(body, pos) == CutAtFirst([], last, k, pos)
  {
    if k < |last| + 2 {
      assert body[pos..] == (last + CRLF)[..k];
      CutInSizeLine(body, pos, last, 0, k);
    } else {
      var part := CRLF[..k - |last| - 2];
      assert body[pos..] == last + CRLF + part;
      LastRead(body, pos, last, part);
    }
  }

  lemma CutInSizeLine(body: string, pos: nat, text: string, n: nat, k: nat)
    requires IsSize(text, n) && 0 < k < |text| + 2
    requires pos <= |body| && body[pos..] == (text + CRLF)[..k]
    ensures ChunksFrom(body, pos) == Err(MissingSizeLine)
  {
    NoCrInSize(text, n);
    FindIsFirst(body, CRLF, pos);
    LineEndIsFind(body, pos);
    forall j | pos <= j && j + 2 <= |body| ensures !At(body, CRLF, j) {
      assert body[j] == body[pos..][j - pos] == text[j - pos];
    }
  }

  lemma CutInChunk(body: string, pos: nat, c: Chunk, k: nat)
    requires IsChunk(c) && 0 < k < SizeOf(c)
    requires pos <= |body| && body[pos..] == EncodedChunk(c)[..k]
    ensures ChunksFrom(body, pos) == CutChunk(c, k, pos)
  {
    var size := c.size + CRLF;
    if k < |size| {
      assert body[pos..] == size[..k];
      CutInSizeLine(body, pos, c.size, |c.data|, k);
    } else {
      assert body[pos..] == c.size + CRLF + (c.data + CRLF)[..k - |size|];
      CutInData(body, pos, c, k - |size|);
    }
  }

  lemma CutInData(body: string, pos: nat, c: Chunk, k: nat)
    requires IsChunk(c) && k < |c.data| + 2
    requires pos <= |body| && body[pos..] == c.size + CRLF + (c.data + CRLF)[..k]
    ensures ChunksFrom(body, pos) == CutChunk(c, |c.size| + 2 + k, pos)
  {
    var part := (c.data + CRLF)[..k];
    SizeLine(body, pos, c.size, |c.data|, part);
    if k >= |c.data| {
      var after := part[|c.data|..];
      assert part == c.data + after;
      assert body[pos..] == (c.size + CRLF) + c.data + after;
      Pieces(body, pos, c.size + CRLF, c.data, after);
    }
  }

  // So a cut body never yields part of a chunk.
  lemma CutGivesWholeChunks(chunks: seq<Chunk>, last: string, k: nat)
    ensures var r := CutResult(chunks, last, k);
            r.Ok? ==> exists j :: 0 <= j <= |chunks| && r.text == Flat(chunks[..j])
  {
    var n := WholeChunks(chunks, k);
    WholeReach(chunks, k);
    BeforeNothing(Flat(chunks[..n]));
    if n < |chunks| {
      FlatOneMore(chunks, n);
    }
  }

  lemma {:induction false} FlatOneMore(chunks: seq<Chunk>, n: nat)
    requires n < |chunks|
    ensures Flat(chunks[..n + 1]) == Flat(chunks[..n]) + chunks[n].data
    decreases n
  {
    FirstOf(chunks, n);
    if n == 0 {
      assert chunks[..1][1..] == [] && Flat([]) == "";
    } else {
      FlatOneMore(chunks[1..], n - 1);
      FirstOf(chunks, n - 1);
      Concat(chunks[0].data, Flat(chunks[1..][..n - 1]), chunks[n].data);
    }
  }

  // An encoding that fits in memory is never cut where a sum wraps.
  lemma CutDoesNotWrap(chunks: seq<Chunk>, last: string, k: nat)
    requires |Encoded(chunks, last)| < TWO_64
    ensures CutResult(chunks, last, k) != Err(Wrapped)
  {
    var n := WholeChunks(chunks, k);
    WholeReach(chunks, k);
    EncodedParts(chunks, n);
  }

  // --- The sizes that the program prints ---

  function PrintedChunks(datas: seq<string>): seq<Chunk> {
    seq(|datas|, i requires 0 <= i < |datas| => Chunk(HexText(|datas[i]|), datas[i]))
  }

  function Joined(datas: seq<string>): string {
    if |datas| == 0 then "" else datas[0] + Joined(datas[1..])
  }

  // Data with sizes in the program's own hexadecimal form is decoded to the data.
  lemma PrintedRoundTrip(datas: seq<string>, rest: string)
    requires forall i :: 0 <= i < |datas| ==> 0 < |datas[i]| < TWO_64
    ensures var body := Encoded(PrintedChunks(datas), HexText(0)) + rest;
            && Chunks(body) == Ok(Joined(datas))
            && (|body| < TWO_64 - 2 ==> Decoded(body) == Some(Ok(Joined(datas))))
  {
    forall i | 0 <= i < |datas| ensures IsChunk(PrintedChunks(datas)[i]) {
      PrintedSize(|datas[i]|);
    }
    PrintedSize(0);
    ChunkedRoundTrip(PrintedChunks(datas), HexText(0), rest);
    FlatPrinted(datas);
  }

  lemma {:induction false} FlatPrinted(datas: seq<string>)
    ensures Flat(PrintedChunks(datas)) == Joined(datas)
  {
    if |datas| > 0 {
      FlatPrinted(datas[1..]);
      assert PrintedChunks(datas)[1..] == PrintedChunks(datas[1..]);
    }
  }

  // --- Sums that wrap ---

  // At a sum that wraps the program takes all that is left of the body for data, and goes on at
  // the remainder, at most one character behind the line.
  lemma WrappedStep(body: string, pos: nat, text: string, n: nat, after: string)
    requires pos <= |body| < TWO_64 - 2 && body[pos..] == text + CRLF + after
    requires IsSize(text, n) && pos + |text| + 2 + n >= TWO_64
    ensures var next := pos + |text| + 4 + n - TWO_64;
            NextStep(body, pos) == Go(after, next) && next <= pos + |text| + 3 <= |body| + 1
  {
    SizeLineStep(body, pos, text, n, after);
    ReadHexIsValue(text);
    Pieces(body, pos, text, CRLF, after);
    assert Wrap64(pos + |text| + 2 + n) == pos + |text| + 2 + n - TWO_64;
  }

  // A line sends the program back to itself exactly if its size lacks as much to 2^64 as the
  // line and the two line ends are long.
  lemma WrappedSizeLoops(body: string, pos: nat, text: string, n: nat, after: string)
    requires pos <= |body| < TWO_64 - 2 && body[pos..] == text + CRLF + after
    requires IsSize(text, n)
    ensures var step := NextStep(body, pos);
            step.Go? && step.next == pos <==> n == TWO_64 - |text| - 4 && pos >= 2
  {
    SizeLineStep(body, pos, text, n, after);
    ReadHexIsValue(text);
    SumsComeBack(pos, |text|, n, |body|);
  }

  lemma SumsComeBack(pos: nat, line: nat, n: nat, length: nat)
    requires pos + line + 2 <= length < TWO_64 - 2 && n < TWO_64
    ensures var sum := Wrap64(pos + line + 2 + n);
            n > 0 && sum <= length && Wrap64(sum + 2) == pos <==> n == TWO_64 - line - 4 && pos >= 2
  {
    if pos + line + 2 + n >= TWO_64 {
      assert Wrap64(pos + line + 2 + n) == pos + line + 2 + n - TWO_64;
    }
  }

  lemma SizeLineStep(body: string, pos: nat, text: string, n: nat, after: string)
    requires pos <= |body| && body[pos..] == text + CRLF + after
    requires IsSize(text, n)
    ensures pos + |text| + 2 <= |body| && NextStep(body, pos) == SizedStep(body, pos + |text| + 2, Some(n))
  {
    NoCrInSize(text, n);
    FindAfter(body, pos, text, CRLF, after);
    LineEndIsFind(body, pos);
    Pieces(body, pos, text, CRLF, after);
  }

  // Such a line is never left.
  lemma {:induction false} LoopsForEver(body: string, pos: nat, depth: nat)
    requires pos < |body| && NextStep(body, pos).Go? && NextStep(body, pos).next == pos
    ensures DecodedWithin(body, pos, depth).None?
    decreases depth
  {
    if depth > 0 {
      LoopsForEver(body, pos, depth - 1);
    }
  }

  const UNDERRUN := Fs(16) + CRLF + "0\r\n"
  const ENDLESS := "1\r\nX\r\n" + (Fs(14) + "ec" + CRLF)

  // A body with an impossible size that the program takes for data, and one that it never leaves.
  lemma WrappedBodies()
    ensures Chunks(UNDERRUN) == Err(Wrapped) && Decoded(UNDERRUN) == Some(Ok("0\r\n"))
    ensures Chunks(ENDLESS) == Err(Wrapped) && forall depth: nat :: DecodedWithin(ENDLESS, 0, depth).None?
  {
    UnderrunRead();
    EndlessRead();
    forall depth: nat ensures DecodedWithin(ENDLESS, 0, depth).None? {
      if depth > 0 {
        LoopsForEver(ENDLESS, 6, depth - 1);
      }
    }
  }

  lemma UnderrunRead()
    ensures Chunks(UNDERRUN) == Err(Wrapped) && Decoded(UNDERRUN) == Some(Ok("0\r\n"))
  {
    LargeSizes();
    var body := UNDERRUN;
    assert |body| == 21 && body[0..] == Fs(16) + CRLF + "0\r\n" && body[18..] == "0\r\n";
    SizeLine(body, 0, Fs(16), TWO_64 - 1, "0\r\n");
    SizeLineStep(body, 0, Fs(16), TWO_64 - 1, "0\r\n");
    assert NextStep(body, 0) == Go("0\r\n", 19);
    assert body[19..] == "" + CRLF + "";
    assert IsLast(body, 19) by {
      FindAfter(body, 19, "", CRLF, "");
      LineEndIsFind(body, 19);
    }
    assert DecodedWithin(body, 19, 20) == Some(Ok(""));
    BeforeNothing("0\r\n");
  }

  predicate IsLast(body: string, pos: nat) {
    NextStep(body, pos) == Stop(Ok(""))
  }

  lemma EndlessRead()
    ensures Chunks(ENDLESS) == Err(Wrapped) && |ENDLESS| == 24
    ensures NextStep(ENDLESS, 0).Go? && NextStep(ENDLESS, 0).next == 6
    ensures NextStep(ENDLESS, 6).Go? && NextStep(ENDLESS, 6).next == 6
  {
    LargeSizes();
    var body, line := ENDLESS, Fs(14) + "ec";
    assert |body| == 24 && body[6..] == line + CRLF + "";
    SizeLine(body, 6, line, TWO_64 - 20, "");
    assert ChunksFrom(body, 6) == Err(Wrapped);
    WrappedSizeLoops(body, 6, line, TWO_64 - 20, "");
    var after := "X\r\n" + (line + CRLF);
    assert body[0..] == "1" + CRLF + after;
    assert IsSize("1", 1) by {
      assert "1"[1..] == "";
    }
    SizeLine(body, 0, "1", 1, after);
    assert FirstPiece(body, 0) == Data(3, 1);
    SizeLineStep(body, 0, "1", 1, after);
  }

  lemma LargeSizes()
    ensures IsSize(Fs(16), TWO_64 - 1) && IsSize(Fs(14) + "ec", TWO_64 - 20)
  {
    PowBound(16);
    FsRead(16, "");
    assert Fs(16) + "" == Fs(16);
    FsRead(14, "ec");
    assert Pow16(16) == 256 * Pow16(14);
    assert "ec"[1..] == "c" && "c"[1..] == "";
    assert ReadHexFrom("c", 16 * Pow16(14) - 2) == Some(256 * Pow16(14) - 20);
  }
}
