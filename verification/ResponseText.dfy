// The text of a response: how the server builds it and what the client makes of any text.

module ResponseText {
  import opened Chunked
  import opened Decimal
  import opened HeaderText
  import opened Pairs
  import opened RequestText
  import opened Text
  import opened Wrappers
  import SortedMap

  // --- Status lines ---

  // A status by its number.
  type Status = n: nat | n < 1000

  const OK: Status := 200
  const INTERNAL_SERVER_ERROR: Status := 500

  predicate IsListed(s: Status) {
    s in {200, 201, 202, 204, 300, 301, 302, 304, 400, 401, 403, 404, 500, 501, 502, 503}
  }

  function Reason(s: Status): string {
    match s
    case 200 => "OK"
    case 201 => "Created"
    case 202 => "Accepted"
    case 204 => "No Content"
    case 300 => "Multiple Choices"
    case 301 => "Moved Permanently"
    case 302 => "Moved Temporarily"
    case 304 => "Not Modified"
    case 400 => "Bad Request"
    case 401 => "Unauthorized"
    case 403 => "Forbidden"
    case 404 => "Not Found"
    case 501 => "Not Implemented"
    case 502 => "Bad Gateway"
    case 503 => "Service Unavailable"
    case _ => "Internal Server Error"
  }

  // The status that is printed for a status.
  function Shown(s: Status): Status {
    if IsListed(s) then s else INTERNAL_SERVER_ERROR
  }

  const HTTP_1_0 := "HTTP/1.0 "
  const HTTP_1_1 := "HTTP/1.1 "

  // Without its line end.
  function StatusLine(s: Status): string {
    HTTP_1_0 + DecimalText(Shown(s)) + " " + Reason(Shown(s))
  }

  // --- Building ---

  datatype ContentType =
    HTML | CSS | JAVASCRIPT | JPEG | PNG | XML | JSON | PLAIN_TEXT | GIF | SVG | PDF | MP3 | MP4 | WEBM | WOFF2 | TTF
    | EOT | SSE | UNKNOWN

  function ContentTypeText(t: ContentType): string {
    match t
    case JSON => "application/json"
    case HTML => "text/html"
    case PLAIN_TEXT => "text/plain; charset=utf-8"
    case CSS => "text/css"
    case JAVASCRIPT => "text/javascript"
    case JPEG => "image/jpeg"
    case PNG => "image/png"
    case GIF => "image/gif"
    case SVG => "image/svg+xml"
    case PDF => "application/pdf"
    case MP3 => "audio/mpeg"
    case MP4 => "video/mp4"
    case WEBM => "video/webm"
    case WOFF2 => "font/woff2"
    case TTF => "font/ttf"
    case EOT => "application/vnd.ms-fontobject"
    case XML => "application/xml"
    case SSE => "text/event-stream"
    case UNKNOWN => "application/octet-stream"
  }

  type Headers = map<string, string>

  const CONTENT_TYPE := "Content-Type"
  const CONTENT_LENGTH := "Content-Length"

  function WithContentType(h: Headers, t: ContentType): Headers {
    if CONTENT_TYPE in h then h
    else
      var typed := h[CONTENT_TYPE := ContentTypeText(t)];
      if t == SSE then typed["Cache-Control" := "no-cache"] else typed
  }

  function WithLength(h: Headers, length: nat, chunked: bool): Headers {
    if chunked || CONTENT_LENGTH in h then h else h[CONTENT_LENGTH := DecimalText(length)]
  }

  // The headers that a build leaves behind.
  function BuiltHeaders(h: Headers, t: ContentType, length: nat, chunked: bool): Headers {
    WithLength(WithContentType(h, t), length, chunked)
  }

  ghost function BuiltText(s: Status, h: Headers, content: string): string {
    Printed(StatusLine(s), SortedMap.Entries(h), content)
  }

  // --- Parsing ---

  function ParsedCode(code: int): Status {
    if 0 <= code < 1000 && IsListed(code) then code else OK
  }

  // The status behind the start of a status line. None stands for the exception of std::stoi.
  function StatusBehind(raw: string, i: nat): Option<Status>
    requires i + 9 <= |raw|
  {
    match Find(raw, " ", i + 9)
    case None => Some(OK)
    case Some(end) =>
      match Stoi(raw[i + 9..end])
      case None => None
      case Some(code) => Some(ParsedCode(code))
  }

  // What is read as the status.
  function ParsedStatus(raw: string): Option<Status> {
    var newer := Find(raw, HTTP_1_1, 0);
    var start := if newer.Some? then newer else Find(raw, HTTP_1_0, 0);
    if start.None? then Some(OK) else StatusBehind(raw, start.value)
  }

  predicate IsBlankChar(c: char) {
    c == ' ' || c == '\t' || c == '\r' || c == '\n'
  }

  function TrimLeft(s: string): string {
    if |s| > 0 && IsBlankChar(s[0]) then TrimLeft(s[1..]) else s
  }

  function TrimRight(s: string): string {
    if |s| > 0 && IsBlankChar(s[|s| - 1]) then TrimRight(s[..|s| - 1]) else s
  }

  function Trim(s: string): string {
    TrimRight(TrimLeft(s))
  }

  function LineHeader(line: string): Option<Pair> {
    match Find(line, ":", 0)
    case None => None
    case Some(i) => Some(Pair(Trim(line[..i]), Trim(line[i + 1..])))
  }

  // The headers of the lines up to the first empty one.
  function LinesHeaders(lines: seq<string>): seq<Pair> {
    if |lines| == 0 || |lines[0]| == 0 then []
    else
      var rest := LinesHeaders(lines[1..]);
      match LineHeader(lines[0]) case None => rest case Some(h) => [h] + rest
  }

  const INITIAL_HEADERS: Headers := map["Connection" := "keep-alive"]

  function SectionHeaders(section: string): Headers {
    Store(INITIAL_HEADERS, LinesHeaders(Split(section, '\n')))
  }

  // Endless is no answer: it stands for a chunked body that the program never leaves.
  datatype ParseError = MissingTerminator | BadStatus | BadChunks(error: ChunkError) | Endless

  datatype Parsed = Parsed(status: Status, headers: Headers, content: string) | Failed(error: ParseError)

  function ParsedResponse(raw: string): Parsed {
    match Find(raw, BLANK, 0)
    case None => Failed(MissingTerminator)
    case Some(end) =>
      match ParsedStatus(raw)
      case None => Failed(BadStatus)
      case Some(status) => ParsedBody(status, SectionHeaders(raw[..end]), raw[end + 4..])
  }

  predicate IsChunked(h: Headers) {
    "Transfer-Encoding" in h && h["Transfer-Encoding"] == "chunked"
  }

  function ParsedBody(status: Status, headers: Headers, body: string): Parsed {
    if IsChunked(headers) then
      match Decoded(body)
      case None => Failed(Endless)
      case Some(Err(error)) => Failed(BadChunks(error))
      case Some(Ok(text)) => Parsed(status, headers, text)
    else
      Parsed(status, headers, body)
  }
}
