/**
 * The request handling of attached_sever.c as pure functions of the bytes the
 * client sends: tokenising the request line, routing a URI to a file or to the
 * CGI adder, the MIME table, the bytes of the response heads, where the header
 * block ends, the Content-Length a POST carries, and the status decisions of
 * doit for GET, POST and every other method.
 */
module Http {
  import opened Wrappers
  import opened CText
  import opened Framing
  import opened Rio
  import Forms
  import AddCgi

  // ---------------------------------------------------------------------------
  // The request line: sscanf(buf, "%s %s %s", method, uri, version)

  /** A %s conversion's result: not empty, no white space. */
  predicate IsWord(w: string) {
    w != [] && forall i | 0 <= i < |w| :: !IsSpace(w[i])
  }

  /** The longest prefix of `s` without white space. */
  function Word(s: string): (r: string)
    ensures |r| <= |s| && r == s[..|r|]
    ensures forall i | 0 <= i < |r| :: !IsSpace(r[i])
    ensures |r| < |s| ==> IsSpace(s[|r|])
  {
    if s == [] || IsSpace(s[0]) then [] else [s[0]] + Word(s[1..])
  }

  /** The white-space separated words of `s`, in order: what successive %s
      conversions separated by white space store. */
  function Words(s: string): (r: seq<string>)
    ensures forall i | 0 <= i < |r| :: IsWord(r[i])
    decreases |s|
  {
    var t := SkipSpaces(s);
    if t == [] then []
    else
      var w := Word(t);
      [w] + Words(t[|w|..])
  }

  /** A word followed by white space or the end is read whole. */
  lemma WordThen(w: string, rest: string)
    requires IsWord(w) && (rest == [] || IsSpace(rest[0]))
    ensures Word(w + rest) == w
  {
    assert (w + rest)[..|w|] == w;
  }

  /** One separating space is skipped before the next word. */
  lemma SpaceThenWord(x: string)
    requires x != [] && !IsSpace(x[0])
    ensures SkipSpaces(" " + x) == x && SkipSpaces(x) == x
  {
    assert (" " + x)[1..] == x;
  }

  /** The word at the front of `w + " " + rest`, and where the next one is looked for. */
  lemma WordsStep(w: string, rest: string)
    requires IsWord(w) && rest != [] && !IsSpace(rest[0])
    ensures Words(w + " " + rest) == [w] + Words(" " + rest)
  {
    var tail := " " + rest;
    var s := w + tail;
    assert w + " " + rest == s;
    assert s[0] == w[0];
    assert SkipSpaces(s) == s by { SpaceThenWord(s); }
    assert Word(s) == w by { WordThen(w, tail); }
    assert s[|w|..] == tail;
    assert Words(s) == [Word(s)] + Words(s[|Word(s)|..]);
  }

  /** Leading white space does not change the words. */
  lemma WordsSkip(x: string)
    requires x != [] && !IsSpace(x[0])
    ensures Words(" " + x) == Words(x)
  {
    SpaceThenWord(x);
  }

  lemma WordsOfCrlf()
    ensures Words(CRLF) == []
  {
    assert SkipSpaces(CRLF[1..]) == [];
  }

  lemma WordsLast(v: string)
    requires IsWord(v)
    ensures Words(" " + (v + CRLF)) == [v]
  {
    var t := v + CRLF;
    SpaceThenWord(t);
    WordThen(v, CRLF);
    assert t[|v|..] == CRLF;
    WordsOfCrlf();
  }

  lemma WordsOfThree(m: string, u: string, v: string)
    requires IsWord(m) && IsWord(u) && IsWord(v)
    ensures Words(m + " " + (u + " " + (v + CRLF))) == [m, u, v]
  {
    var tail := v + CRLF;
    var second := u + " " + tail;
    var a := Words(" " + tail);
    var b := Words(" " + second);
    assert a == [v] by { WordsLast(v); }
    assert b == [u] + a by { WordsSkip(second); WordsStep(u, tail); }
    assert Words(m + " " + second) == [m] + b by { WordsStep(m, second); }
  }

  /** A request line written as "method uri version" CR LF is read back word for word:
      sscanf(buf, "%s %s %s") stores the three words. */
  lemma WordsOfRequestLine(m: string, u: string, v: string)
    requires IsWord(m) && IsWord(u) && IsWord(v)
    ensures Words(m + " " + u + " " + v + CRLF) == [m, u, v]
  {
    assert m + " " + u + " " + v + CRLF == m + " " + (u + " " + (v + CRLF));
    WordsOfThree(m, u, v);
  }

  /** A request line that holds only the method: sscanf stores the method and
      nothing else. */
  lemma WordsOfMethodOnly(m: string)
    requires IsWord(m)
    ensures Words(m + CRLF) == [m]
  {
    var s := m + CRLF;
    SpaceThenWord(s);
    WordThen(m, CRLF);
    assert s[|m|..] == CRLF;
    WordsOfCrlf();
  }

  // ---------------------------------------------------------------------------
  // parse_uri

  /** The text whose presence in a URI routes the request to the CGI adder. */
  const CGI_MARK: string := "calculate/add?"

  /** What parse_uri produces: its return value, filename and cgiargs. */
  datatype Target = Target(isStatic: bool, filename: string, cgiargs: string)

  lemma MarkHasQuery(uri: string)
    requires Contains(uri, CGI_MARK)
    ensures '?' in uri
  {
    var i := FindSub(uri, CGI_MARK).value;
    assert uri[i..i + |CGI_MARK|][13] == '?';
  }

  /** parse_uri: a URI without the CGI mark names the file "." + uri, with
      "index.html" added after a final '/'; a URI with it names the program before
      the first '?' and passes the text after it as the CGI arguments. */
  function ParseUri(uri: string): (t: Target)
    requires uri != []
    ensures t.isStatic <==> !Contains(uri, CGI_MARK)
    ensures t.isStatic ==> (t.cgiargs == [] && |t.filename| >= |uri| + 1 && t.filename[..|uri| + 1] == "." + uri
      && (uri[|uri| - 1] == '/' <==> |t.filename| > |uri| + 1)
      && t.filename[|uri| + 1..] in {[], "index.html"})
    ensures !t.isStatic ==> "." + uri == t.filename + "?" + t.cgiargs && '?' !in t.filename
  {
    if !Contains(uri, CGI_MARK) then
      Target(true, "." + uri + (if uri[|uri| - 1] == '/' then "index.html" else ""), "")
    else
      match IndexOf(uri, '?')
      case Some(i) =>
        assert uri == uri[..i] + "?" + uri[i + 1..];
        Target(false, "." + uri[..i], uri[i + 1..])
      case None =>
        MarkHasQuery(uri);
        assert false;
        Target(false, "", "")
  }

  // ---------------------------------------------------------------------------
  // get_filetype

  const EXTENSIONS: seq<string> := [".html", ".gif", ".png", ".jpg", ".ico"]
  const MIME_TYPES: seq<string> := ["text/html", "image/gif", "image/png", "image/jpeg", "image/ico"]
  const DEFAULT_TYPE: string := "text/plain"

  /** get_filetype: the MIME type of the first extension in the table that occurs
      anywhere in the name, text/plain when none does. */
  function GetFiletype(filename: string): (r: string)
  {
    if Contains(filename, ".html") then "text/html"
    else if Contains(filename, ".gif") then "image/gif"
    else if Contains(filename, ".png") then "image/png"
    else if Contains(filename, ".jpg") then "image/jpeg"
    else if Contains(filename, ".ico") then "image/ico"
    else DEFAULT_TYPE
  }

  /** The type is the one of the first listed extension found in the name. */
  lemma FiletypeFirstMatch(filename: string, j: nat)
    requires j < |EXTENSIONS| && Contains(filename, EXTENSIONS[j])
    requires forall i | 0 <= i < j :: !Contains(filename, EXTENSIONS[i])
    ensures GetFiletype(filename) == MIME_TYPES[j]
  {
    assert EXTENSIONS[0] == ".html" && EXTENSIONS[1] == ".gif" && EXTENSIONS[2] == ".png";
    assert EXTENSIONS[3] == ".jpg" && EXTENSIONS[4] == ".ico";
    if j > 0 { assert !Contains(filename, EXTENSIONS[0]); }
    if j > 1 { assert !Contains(filename, EXTENSIONS[1]); }
    if j > 2 { assert !Contains(filename, EXTENSIONS[2]); }
    if j > 3 { assert !Contains(filename, EXTENSIONS[3]); }
  }

  /** text/plain exactly when no listed extension occurs in the name. */
  lemma FiletypeDefault(filename: string)
    ensures GetFiletype(filename) == DEFAULT_TYPE <==> forall i | 0 <= i < |EXTENSIONS| :: !Contains(filename, EXTENSIONS[i])
  {
    assert EXTENSIONS[0] == ".html" && EXTENSIONS[1] == ".gif" && EXTENSIONS[2] == ".png";
    assert EXTENSIONS[3] == ".jpg" && EXTENSIONS[4] == ".ico";
  }

  // ---------------------------------------------------------------------------
  // Response heads: serve_static and clienterror

  const HTTP_VERSION: string := "HTTP/1.0"

  /** A status line "HTTP/1.0 <code> <reason>", without its CR LF. */
  function StatusLine(code: string, reason: string): string {
    HTTP_VERSION + " " + code + " " + reason
  }

  const OK_STATUS: string := StatusLine("200", "OK")
  const SERVER_LINE: string := "Server: Book Web Server"
  const LENGTH_LINE: string := "Content-length: "
  const TYPE_LINE: string := "Content-type: "
  const HTML_TYPE_LINE: string := "Content-type: text/html"

  /** The head serve_static writes in four pieces before the file: the status line,
      the server line, the length and the type, then the empty line. */
  function StaticHead(filesize: int, filetype: string): string {
    OK_STATUS + CRLF + SERVER_LINE + CRLF + LENGTH_LINE + Decimal(filesize) + CRLF + TYPE_LINE + filetype + CRLF + CRLF
  }

  /** The head clienterror writes before its HTML page. */
  function ErrorHead(errnum: string, shortmsg: string): string {
    StatusLine(errnum, shortmsg) + CRLF + HTML_TYPE_LINE + CRLF + CRLF
  }

  /** The part of clienterror's HTML page that depends on its arguments: a heading
      with the status and a paragraph with the long message and the cause. */
  function ErrorBody(cause: string, errnum: string, shortmsg: string, longmsg: string): string {
    "<h1 class=\"error\">" + errnum + ": " + shortmsg + "</h1>\n<p class=\" center \">" + longmsg + ": " + cause + "</p>\n"
  }

  /** The head clienterror sends and the lines of its page that carry its
      arguments; the fixed HTML around those lines is not part of this model. */
  function ErrorPage(cause: string, errnum: string, shortmsg: string, longmsg: string): string {
    ErrorHead(errnum, shortmsg) + ErrorBody(cause, errnum, shortmsg, longmsg)
  }

  /** The bytes clienterror's sprintf writes around its four arguments: the 1813
      bytes of the page template in UTF-8, less the four "%s", and less four bytes
      for each of the three "% 50%", which glibc prints as a single '%' (it prints
      the other unknown conversions, "% {" and "%;", as written). */
  const PAGE_FIXED: nat := 1793

  /** Whether the page sprintf writes, with its NUL, fits clienterror's
      buf[MAXLINE]. Argument lengths count characters: every argument that can be
      long is bytes of the request. */
  predicate PageFits(cause: string, errnum: string, shortmsg: string, longmsg: string) {
    PAGE_FIXED + |errnum| + |shortmsg| + |longmsg| + |cause| + 1 <= MAXLINE
  }

  /** The status code a client reads: the second word of the response when the first
      is the protocol version. */
  function StatusOf(response: string): Option<string> {
    var t := SkipSpaces(response);
    var version := Word(t);
    var code := Word(SkipSpaces(t[|version|..]));
    if version == HTTP_VERSION && code != [] then Some(code) else None
  }

  lemma StatusLineSplit(code: string, reason: string, rest: string)
    ensures StatusLine(code, reason) + rest == HTTP_VERSION + (" " + (code + (" " + (reason + rest))))
  {
  }

  /** A response that starts with a status line carries its code. */
  lemma StatusOfLine(code: string, reason: string, rest: string)
    requires IsWord(code) && reason != [] && !IsSpace(reason[0])
    ensures StatusOf(StatusLine(code, reason) + rest) == Some(code)
  {
    var tail := " " + (reason + rest);
    var second := code + tail;
    var s := HTTP_VERSION + (" " + second);
    StatusLineSplit(code, reason, rest);
    assert SkipSpaces(s) == s by { SpaceThenWord(s); }
    assert Word(s) == HTTP_VERSION by { WordThen(HTTP_VERSION, " " + second); }
    assert s[|HTTP_VERSION|..] == " " + second;
    assert SkipSpaces(" " + second) == second by { SpaceThenWord(second); }
    assert Word(second) == code by { WordThen(code, tail); }
  }

  /** A served file comes back with code 200. */
  lemma StatusOfStatic(filesize: int, filetype: string, body: string)
    ensures StatusOf(StaticHead(filesize, filetype) + body) == Some("200")
  {
    var rest := StaticHead(filesize, filetype)[|OK_STATUS|..] + body;
    assert StaticHead(filesize, filetype) + body == OK_STATUS + rest;
    assert IsWord("200");
    StatusOfLine("200", "OK", rest);
  }

  /** An error page comes back with its error number as the code. */
  lemma StatusOfError(cause: string, errnum: string, shortmsg: string, longmsg: string)
    requires IsWord(errnum) && shortmsg != [] && !IsSpace(shortmsg[0])
    ensures StatusOf(ErrorPage(cause, errnum, shortmsg, longmsg)) == Some(errnum)
  {
    var line := StatusLine(errnum, shortmsg);
    var body := ErrorBody(cause, errnum, shortmsg, longmsg);
    assert ErrorHead(errnum, shortmsg) == line + CRLF + HTML_TYPE_LINE + CRLF + CRLF;
    Regroup5(line, CRLF, HTML_TYPE_LINE, CRLF, CRLF, body);
    StatusOfLine(errnum, shortmsg, CRLF + HTML_TYPE_LINE + CRLF + CRLF + body);
  }

  /** The head of an error page alone, as sent when the page overruns its buffer,
      also comes back with the error number as the code. */
  lemma StatusOfErrorHead(errnum: string, shortmsg: string)
    requires IsWord(errnum) && shortmsg != [] && !IsSpace(shortmsg[0])
    ensures StatusOf(ErrorHead(errnum, shortmsg)) == Some(errnum)
  {
    var line := StatusLine(errnum, shortmsg);
    Regroup4(line, CRLF, HTML_TYPE_LINE, CRLF, CRLF);
    StatusOfLine(errnum, shortmsg, CRLF + HTML_TYPE_LINE + CRLF + CRLF);
  }

  lemma Regroup4(a: string, b: string, c: string, d: string, e: string)
    ensures a + b + c + d + e == a + (b + c + d + e)
  {
  }

  lemma Regroup5(a: string, b: string, c: string, d: string, e: string, f: string)
    ensures a + b + c + d + e + f == a + (b + c + d + e + f)
  {
  }

  /** MIME types fit on a header line. */
  lemma FiletypePlain(filename: string)
    ensures PlainLine(GetFiletype(filename))
  {
  }

  lemma HeadLinesPlain()
    ensures PlainLine(OK_STATUS) && PlainLine(SERVER_LINE) && PlainLine(HTML_TYPE_LINE)
    ensures '\r' !in LENGTH_LINE && '\r' !in TYPE_LINE
  {
  }

  lemma StaticHeadIsBlock(filesize: int, filetype: string)
    ensures StaticHead(filesize, filetype) == Block([OK_STATUS, SERVER_LINE, LENGTH_LINE + Decimal(filesize), TYPE_LINE + filetype])
  {
    BlockOfFour(OK_STATUS, SERVER_LINE, LENGTH_LINE + Decimal(filesize), TYPE_LINE + filetype);
  }

  /** The static head is a well-formed head of four lines: a client reading up to the
      first empty line reads exactly it, and the file follows. */
  lemma StaticHeadFrame(filesize: int, filetype: string, body: string)
    requires PlainLine(filetype)
    ensures var lines := [OK_STATUS, SERVER_LINE, LENGTH_LINE + Decimal(filesize), TYPE_LINE + filetype];
      StaticHead(filesize, filetype) == Block(lines)
      && FindSub(StaticHead(filesize, filetype) + body, BLANK) == Some(|StaticHead(filesize, filetype)| - 4)
  {
    var lines := [OK_STATUS, SERVER_LINE, LENGTH_LINE + Decimal(filesize), TYPE_LINE + filetype];
    StaticHeadIsBlock(filesize, filetype);
    HeadLinesPlain();
    DecimalPlain(filesize);
    assert PlainLine(lines[2]) && PlainLine(lines[3]);
    BlockEnds(lines, body);
  }

  /** The error head is a well-formed head of two lines. */
  lemma ErrorHeadFrame(errnum: string, shortmsg: string, body: string)
    requires '\r' !in errnum && '\r' !in shortmsg
    ensures var lines := [StatusLine(errnum, shortmsg), HTML_TYPE_LINE];
      ErrorHead(errnum, shortmsg) == Block(lines)
      && FindSub(ErrorHead(errnum, shortmsg) + body, BLANK) == Some(|ErrorHead(errnum, shortmsg)| - 4)
  {
    var lines := [StatusLine(errnum, shortmsg), HTML_TYPE_LINE];
    BlockOfTwo(StatusLine(errnum, shortmsg), HTML_TYPE_LINE);
    HeadLinesPlain();
    assert PlainLines(lines);
    BlockEnds(lines, body);
  }

  /** The length a client reads from the static head is the size it was given. */
  lemma StaticLengthReadsBack(filesize: int, filetype: string)
    requires InInt(filesize)
    ensures var head := StaticHead(filesize, filetype);
      var at := |OK_STATUS| + |CRLF| + |SERVER_LINE| + |CRLF|;
      head[at..at + |LENGTH_LINE|] == LENGTH_LINE && Atoi(head[at + |LENGTH_LINE|..]) == filesize
  {
    var head := StaticHead(filesize, filetype);
    var at := |OK_STATUS| + |CRLF| + |SERVER_LINE| + |CRLF|;
    var rest := CRLF + TYPE_LINE + filetype + CRLF + CRLF;
    assert head == (OK_STATUS + CRLF + SERVER_LINE + CRLF) + LENGTH_LINE + (Decimal(filesize) + rest);
    assert head[at + |LENGTH_LINE|..] == Decimal(filesize) + rest;
    AtoiDecimalThen(filesize, rest);
  }

  // ---------------------------------------------------------------------------
  // Reading the request head: read_requesthdrs and the POST header loop

  /** The room Rio_readlineb(rp, buf, MAXLINE) leaves for a line. */
  const LINE_ROOM: nat := Room(MAXLINE)

  /** strcmp(buf, "\r\n") == 0: the empty line that ends a head. */
  predicate IsBlank(line: string) {
    CStr(line) == CRLF
  }

  /** A line as rio_readlineb cuts it is the empty line exactly when it is CR LF. */
  lemma BlankIsCrlf(s: string, room: nat, k: nat)
    requires LineEnds(s, room, k) && k > 0
    ensures IsBlank(s[..k]) <==> s[..k] == CRLF
  {
    var l := s[..k];
    if IsBlank(l) {
      assert CStr(l)[1] == '\n' && l[1] == '\n';
      NoNewlineAt(s, k - 1, 1);
      assert l[..2] == CRLF;
    }
    if l == CRLF {
      CStrNulFree(l);
    }
  }

  function Shift(r: Option<nat>, k: nat): Option<nat> {
    match r
    case None => None
    case Some(n) => Some(n + k)
  }

  /** read_requesthdrs: the number of bytes the head takes, lines of at most
      LINE_ROOM bytes up to and including the first empty one; None when the input
      ends first, where the loop goes on comparing the last line forever. */
  function SkipHeaders(s: string): (r: Option<nat>)
    ensures r.Some? ==> 0 < r.value <= |s|
    decreases |s|
  {
    if s == [] then None
    else
      var k := LineLength(s, LINE_ROOM);
      if IsBlank(s[..k]) then Some(k) else Shift(SkipHeaders(s[k..]), k)
  }

  /** One step of read_requesthdrs over a line that is not the empty one. */
  lemma SkipHeadersStep(s: string, k: nat, t: string)
    requires s != [] && k == LineLength(s, LINE_ROOM) && !IsBlank(s[..k]) && t == s[k..]
    ensures SkipHeaders(s) == Shift(SkipHeaders(t), k)
  {
  }

  lemma CrlfAfter(s: string, k: nat, t: string, m: nat)
    requires k <= |s| && t == s[k..] && 2 <= m <= |t| && t[m - 2..m] == CRLF
    ensures s[k + m - 2..k + m] == CRLF
  {
    assert t[m - 2..m] == s[k + m - 2..k + m];
  }

  /** Where the head ends, the last two bytes read are CR LF. */
  lemma {:induction false} SkipHeadersEnd(s: string, n: nat)
    requires SkipHeaders(s) == Some(n)
    ensures 2 <= n && s[n - 2..n] == CRLF
    decreases |s|
  {
    var k := LineLength(s, LINE_ROOM);
    if IsBlank(s[..k]) {
      BlankIsCrlf(s, LINE_ROOM, k);
      CrlfAfter(s, 0, s, k);
    } else {
      var t := s[k..];
      SkipHeadersStep(s, k, t);
      var m := SkipHeaders(t).value;
      SkipHeadersEnd(t, m);
      CrlfAfter(s, k, t, m);
    }
  }

  /** A line that fits the room and has no newline of its own is read whole, with its CR LF. */
  lemma LineOfHead(l: string, rest: string)
    requires '\n' !in l && |l| + 2 <= LINE_ROOM
    ensures LineLength(l + CRLF + rest, LINE_ROOM) == |l| + 2
    ensures (l + CRLF + rest)[..|l| + 2] == l + CRLF
  {
    var s := l + CRLF + rest;
    var k := |l| + 2;
    assert s[..k] == l + CRLF;
    assert s[..k - 1] == l + "\r";
    NoNewlineIn(s, k - 1);
    assert s[k - 1] == '\n';
    LineLengthIs(s, LINE_ROOM, k);
  }

  /** A header line: plain, without NUL or newline, short enough to be read in one piece. */
  predicate HeaderLine(l: string) {
    PlainLine(l) && '\0' !in l && '\n' !in l && |l| + 2 <= LINE_ROOM
  }

  /** After a header line, the head ends where it ends in the rest, shifted by the line. */
  lemma SkipHeadersLine(l: string, t: string)
    requires HeaderLine(l)
    ensures SkipHeaders(l + CRLF + t) == Shift(SkipHeaders(t), |l| + 2)
  {
    var s := l + CRLF + t;
    LineOfHead(l, t);
    var k := |l| + 2;
    CStrNulFree(l + CRLF);
    assert CStr(s[..k]) != CRLF;
    assert s[k..] == t;
  }

  /** An empty line ends the head at once. */
  lemma SkipHeadersBlank(s: string, body: string)
    requires s == CRLF + body
    ensures SkipHeaders(s) == Some(2)
  {
    LineOfHead([], body);
    assert [] + CRLF + body == s;
    CStrNulFree(CRLF);
  }

  lemma SkipHeadersCons(s: string, l: string, t: string, n: nat, total: nat)
    requires HeaderLine(l) && SkipHeaders(t) == Some(n)
    requires s == l + CRLF + t && total == |l| + 2 + n
    ensures SkipHeaders(s) == Some(total)
  {
    SkipHeadersLine(l, t);
  }

  lemma BlockSplit(lines: seq<string>, body: string)
    requires lines != []
    ensures Block(lines) + body == lines[0] + CRLF + (Block(lines[1..]) + body)
    ensures |Block(lines)| == |lines[0]| + 2 + |Block(lines[1..])|
  {
  }

  /** A head written as header lines and an empty line is skipped exactly, whatever follows. */
  lemma {:induction false} SkipHeadersOfBlock(lines: seq<string>, body: string)
    requires forall i | 0 <= i < |lines| :: HeaderLine(lines[i])
    ensures SkipHeaders(Block(lines) + body) == Some(|Block(lines)|)
  {
    if lines == [] {
      assert Block(lines) == CRLF;
      SkipHeadersBlank(Block(lines) + body, body);
    } else {
      SkipHeadersOfBlock(lines[1..], body);
      BlockSplit(lines, body);
      SkipHeadersCons(Block(lines) + body, lines[0], Block(lines[1..]) + body, |Block(lines[1..])|, |Block(lines)|);
    }
  }

  /** What the POST loop knows after its header lines. */
  datatype PostHead = PostHead(consumed: nat, length: Option<int>)

  const LENGTH_HEADER: string := "Content-Length: "

  lemma LengthHeaderShape()
    ensures |LENGTH_HEADER| == 16 && LENGTH_HEADER[14] == ':' && LENGTH_HEADER[15] == ' '
    ensures ':' !in LENGTH_HEADER[..14]
  {
  }

  /** A text holding a pattern with a colon holds a colon no later than that one. */
  lemma ColonAt(t: string, pat: string, p: nat, j: nat)
    requires OccursAt(t, pat, p) && j < |pat| && pat[j] == ':'
    ensures IndexOf(t, ':').Some? && IndexOf(t, ':').value <= p + j
  {
    assert t[p + j] == pat[j];
  }

  /** The colon index() finds lies before the space after "Content-Length:". */
  lemma ColonBefore(t: string)
    requires Contains(t, LENGTH_HEADER)
    ensures IndexOf(t, ':').Some? && IndexOf(t, ':').value + 2 <= |t|
  {
    var p := FindSub(t, LENGTH_HEADER).value;
    LengthHeaderShape();
    ColonAt(t, LENGTH_HEADER, p, 14);
  }

  /** The length after one header line: a line holding "Content-Length: " anywhere
      sets it to atoi of the text two bytes after the line's first colon; any other
      line leaves it as it was (None: never set, so uninitialised). */
  function LengthFrom(line: string, length: Option<int>): Option<int> {
    LengthIn(CStr(line), length)
  }

  /** The same on the C string `t` the line holds. */
  function LengthIn(t: string, length: Option<int>): Option<int> {
    if Contains(t, LENGTH_HEADER) then
      ColonBefore(t);
      Some(Atoi(t[IndexOf(t, ':').value + 2..]))
    else length
  }

  /** The POST header loop (attached_sever.c:99-112): where the head ends and the
      last length it set; None when the input ends first and the loop spins. */
  function PostHeaders(s: string, length: Option<int>): (r: Option<PostHead>)
    ensures r.Some? ==> 0 < r.value.consumed <= |s|
    ensures r.Some? && r.value.length.Some? ==> InInt(r.value.length.value) || r.value.length == length
    decreases |s|
  {
    if s == [] then None
    else
      var k := LineLength(s, LINE_ROOM);
      var line := s[..k];
      if IsBlank(line) then Some(PostHead(k, length))
      else
        Advance(PostHeaders(s[k..], LengthFrom(line, length)), k)
  }

  /** The result of the loop after `k` more bytes were read first. */
  function Advance(r: Option<PostHead>, k: nat): Option<PostHead> {
    match r
    case None => None
    case Some(h) => Some(PostHead(h.consumed + k, h.length))
  }

  /** Both header loops stop at the same empty line. */
  lemma {:induction false} PostHeadersEndWhereHeadersEnd(s: string, length: Option<int>)
    ensures PostHeaders(s, length).None? <==> SkipHeaders(s).None?
    ensures PostHeaders(s, length).Some? ==> PostHeaders(s, length).value.consumed == SkipHeaders(s).value
    decreases |s|
  {
    if s != [] {
      var k := LineLength(s, LINE_ROOM);
      if !IsBlank(s[..k]) {
        PostHeadersEndWhereHeadersEnd(s[k..], LengthFrom(s[..k], length));
      }
    }
  }

  /** A Content-Length header line written with "%d" sets the length it carries. */
  lemma LengthFromHeader(n: int, line: string, length: Option<int>)
    requires InInt(n) && line == LENGTH_HEADER + Decimal(n) + CRLF
    ensures LengthFrom(line, length) == Some(n)
  {
    var rest := Decimal(n) + CRLF;
    assert line == LENGTH_HEADER + rest;
    assert CStr(line) == line by { DecimalPlain(n); CStrNulFree(line); }
    assert Contains(line, LENGTH_HEADER) by {
      assert OccursAt(line, LENGTH_HEADER, 0);
      FindSubAt(line, LENGTH_HEADER, 0);
    }
    assert IndexOf(line, ':') == Some(14) by {
      LengthHeaderShape();
      assert line[..14] == LENGTH_HEADER[..14];
      IndexOfAt(line, ':', 14);
    }
    assert line[16..] == rest by { LengthHeaderShape(); }
    assert Atoi(rest) == n by { AtoiDecimalThen(n, CRLF); }
  }

  /** A line without "Content-Length: " leaves the length alone. */
  lemma LengthFromOther(l: string, length: Option<int>)
    requires '\0' !in l && !Contains(l + CRLF, LENGTH_HEADER)
    ensures LengthFrom(l + CRLF, length) == length
  {
    CStrNulFree(l + CRLF);
  }

  lemma PostHeadersBlank(s: string, body: string, length: Option<int>)
    requires s == CRLF + body
    ensures PostHeaders(s, length) == Some(PostHead(2, length))
  {
    LineOfHead([], body);
    assert [] + CRLF + body == s;
    CStrNulFree(CRLF);
  }

  /** One step of the POST loop over a line that is not the empty one. */
  lemma PostHeadersStep(s: string, k: nat, line: string, t: string, length: Option<int>, h: PostHead, total: nat)
    requires s != [] && k == LineLength(s, LINE_ROOM) && line == s[..k] && t == s[k..] && !IsBlank(line)
    requires PostHeaders(t, LengthFrom(line, length)) == Some(h) && total == h.consumed + k
    ensures PostHeaders(s, length) == Some(PostHead(total, h.length))
  {
  }

  lemma PostHeadersCons(s: string, l: string, t: string, length: Option<int>, h: PostHead, total: nat)
    requires HeaderLine(l) && s == l + CRLF + t && total == h.consumed + |l| + 2
    requires PostHeaders(t, LengthFrom(l + CRLF, length)) == Some(h)
    ensures PostHeaders(s, length) == Some(PostHead(total, h.length))
  {
    var k := |l| + 2;
    assert LineLength(s, LINE_ROOM) == k && s[..k] == l + CRLF by { LineOfHead(l, t); }
    assert !IsBlank(l + CRLF) by { CStrNulFree(l + CRLF); }
    assert s[k..] == t;
    PostHeadersStep(s, k, l + CRLF, t, length, h, total);
  }

  /** Header lines without "Content-Length: " leave the length alone, and the loop
      consumes exactly the head they make. */
  lemma {:induction false} PostHeadersWithoutLength(lines: seq<string>, body: string, length: Option<int>)
    requires forall i | 0 <= i < |lines| :: HeaderLine(lines[i]) && !Contains(lines[i] + CRLF, LENGTH_HEADER)
    ensures PostHeaders(Block(lines) + body, length) == Some(PostHead(|Block(lines)|, length))
  {
    if lines == [] {
      PostHeadersBlank(Block(lines) + body, body, length);
    } else {
      var l := lines[0];
      var t := Block(lines[1..]) + body;
      BlockSplit(lines, body);
      PostHeadersWithoutLength(lines[1..], body, length);
      LengthFromOther(l, length);
      PostHeadersCons(Block(lines) + body, l, t, length, PostHead(|Block(lines[1..])|, length), |Block(lines)|);
    }
  }

  /** The body length is that of the last Content-Length line of the head, wherever
      it stands: the lines before it may set any length, and the lines after it carry
      no Content-Length. */
  lemma {:induction false} PostHeadersOfBlock(others: seq<string>, n: int, after: seq<string>, body: string, length: Option<int>)
    requires InInt(n)
    requires forall i | 0 <= i < |others| :: HeaderLine(others[i])
    requires forall i | 0 <= i < |after| :: HeaderLine(after[i]) && !Contains(after[i] + CRLF, LENGTH_HEADER)
    ensures var head := Block(others + [LENGTH_HEADER + Decimal(n)] + after);
      PostHeaders(head + body, length) == Some(PostHead(|head|, Some(n)))
  {
    var cl := LENGTH_HEADER + Decimal(n);
    var lines := others + [cl] + after;
    var t := Block(lines[1..]) + body;
    BlockSplit(lines, body);
    if others == [] {
      assert HeaderLine(cl) by { DecimalPlain(n); DecimalShort(n); }
      assert lines[1..] == after;
      LengthFromHeader(n, cl + CRLF, length);
      PostHeadersWithoutLength(after, body, Some(n));
      PostHeadersCons(Block(lines) + body, cl, t, length, PostHead(|Block(after)|, Some(n)), |Block(lines)|);
    } else {
      var l := others[0];
      assert lines[1..] == others[1..] + [cl] + after;
      PostHeadersOfBlock(others[1..], n, after, body, LengthFrom(l + CRLF, length));
      PostHeadersCons(Block(lines) + body, l, t, length, PostHead(|Block(lines[1..])|, Some(n)), |Block(lines)|);
    }
  }
}
