/**
 * doit of attached_sever.c as a function of what the client sends and of the
 * world the server sees: the files stat and open find, the rows of the users
 * table, and whether the database opens and an INSERT succeeds. The reply is
 * the bytes written to the client, how the connection ends, and the users
 * table afterwards.
 */
module Doit {
  import opened Wrappers
  import opened CText
  import opened Framing
  import opened Rio
  import Forms
  import AddCgi
  import opened Http

  /** What stat and open find at a path: a regular file with its owner-read bit
      and its bytes, or anything else (a directory, a device) with its st_size. */
  datatype FileInfo =
    | Regular(ownerRead: bool, content: string)
    | Special(size: int)

  /** A row of the users table; None is SQL NULL. */
  datatype Row = Row(username: Option<string>, password: Option<string>, email: Option<string>)

  /** The world doit runs in. */
  datatype Env = Env(files: map<string, FileInfo>, users: seq<Row>, dbOpens: bool, insertOk: bool)

  /** How the handling of a connection ends: doit returns and the thread closes the
      socket; the process exits, through unix_error's exit(0) when a wrapper fails
      or through exit(1) when the database does not open; a loop spins forever at
      end of input; or the C code has undefined behaviour (an uninitialised read,
      an overflow). */
  datatype End = Done | Exited | Hung | Undefined

  /** The bytes written to the client and how the handling ends. */
  datatype Sent = Sent(out: string, end: End)

  datatype Reply = Reply(out: string, end: End, users: seq<Row>)

  function Keep(s: Sent, env: Env): Reply {
    Reply(s.out, s.end, env.users)
  }

  const NOTHING: Sent := Sent([], Done)
  const UNDEFINED: Sent := Sent([], Undefined)

  // ---------------------------------------------------------------------------
  // serve_static, clienterror and serve_dynamic

  /** The int serve_static receives: st_size truncated to 32 bits. */
  function FileSize(info: FileInfo): (r: int)
    ensures InInt(r)
    ensures info.Regular? ==> r <= |info.content|
  {
    match info
    case Regular(_, content) => WrapInt(|content|)
    case Special(size) => WrapInt(size)
  }

  /** serve_static: the four head lines, then the first `filesize` bytes of the file
      through mmap. Open fails on a file its owner cannot read and mmap fails on
      anything but a regular file of positive size; either wrapper exits. */
  function ServeStatic(filename: string, info: FileInfo): (r: Sent)
    ensures |r.out| >= |StaticHead(FileSize(info), GetFiletype(filename))|
    ensures r.out[..|StaticHead(FileSize(info), GetFiletype(filename))|] == StaticHead(FileSize(info), GetFiletype(filename))
    ensures r.end == Done <==> info.Regular? && info.ownerRead && FileSize(info) > 0
    ensures r.end != Done ==> r.end == Exited
  {
    var size := FileSize(info);
    var head := StaticHead(size, GetFiletype(filename));
    if info.Regular? && info.ownerRead && size > 0 then
      Sent(head + info.content[..size], Done)
    else
      Sent(head, Exited)
  }

  /** clienterror: its head, then the lines of its page that carry its arguments;
      the fixed HTML around those lines is not part of this model. The page is
      formatted into buf[MAXLINE] after the head has gone out, and a page that does
      not fit runs past the buffer. */
  function ClientError(cause: string, errnum: string, shortmsg: string, longmsg: string): (r: Sent)
    ensures |ErrorHead(errnum, shortmsg)| <= |r.out| && r.out[..|ErrorHead(errnum, shortmsg)|] == ErrorHead(errnum, shortmsg)
    ensures r.end == Done <==> PageFits(cause, errnum, shortmsg, longmsg)
    ensures r.end != Done ==> r.end == Undefined && r.out == ErrorHead(errnum, shortmsg)
  {
    if PageFits(cause, errnum, shortmsg, longmsg) then Sent(ErrorPage(cause, errnum, shortmsg, longmsg), Done)
    else Sent(ErrorHead(errnum, shortmsg), Undefined)   // sprintf writes past buf
  }

  /** The path of the CGI adder as parse_uri names it. */
  const ADDER_PATH: string := "./calculate/add"

  /** serve_dynamic: the child sets QUERY_STRING to the arguments and execs the
      program with its standard output on the socket. The only program is the
      adder; an exec of any other path fails in the child, which writes nothing
      to the client. */
  function ServeDynamic(filename: string, cgiargs: string, files: map<string, FileInfo>): (r: Sent)
    ensures filename != ADDER_PATH || ADDER_PATH !in files ==> r == NOTHING
  {
    if filename == ADDER_PATH && ADDER_PATH in files then
      match AddCgi.Adder(Some(cgiargs))
      case Printed(out) => Sent(out, Done)
      case Overflow => UNDEFINED
    else NOTHING
  }

  /** The checks before a file is served: stat must find it, and it must be a
      regular file its owner may read. The messages differ between the GET and
      the login branch, so they are parameters. */
  function ServeChecked(filename: string, files: map<string, FileInfo>,
                        missingMsg: string, missingLong: string, deniedCode: string): (r: Sent)
    ensures filename !in files ==> r == ClientError(filename, "404", missingMsg, missingLong)
  {
    if filename !in files then ClientError(filename, "404", missingMsg, missingLong)
    else
      var info := files[filename];
      if !info.Regular? || !info.ownerRead then
        ClientError(filename, deniedCode, "Forbidden", "Book sever couldn't read the file")
      else ServeStatic(filename, info)
  }

  // ---------------------------------------------------------------------------
  // GET

  /** The GET branch, after the request line: skip the head, route the URI, and
      serve the file or run the program. read_requesthdrs runs before the URI is
      looked at, so a request line without one still reads the whole head. */
  function Get(uri: Option<string>, rest: string, files: map<string, FileInfo>): (r: Sent)
    requires uri.Some? ==> uri.value != []
    ensures rest == [] ==> r == UNDEFINED
    ensures rest != [] && SkipHeaders(rest).None? ==> r == Sent([], Hung)
    ensures uri.None? && SkipHeaders(rest).Some? ==> r == UNDEFINED
  {
    if rest == [] then UNDEFINED   // the first read finds end of input: buf is never set
    else if SkipHeaders(rest).None? then Sent([], Hung)
    else if uri.None? then UNDEFINED   // sscanf stored no URI: parse_uri reads uri unset
    else
      var t := ParseUri(uri.value);
      if |t.filename| >= MAXLINE then UNDEFINED   // strcat past the end of filename
      else if t.isStatic then
        ServeChecked(t.filename, files, "Not found", "Book couldn't find this file", "403")
      else ServeDynamic(t.filename, t.cgiargs, files)
  }

  // ---------------------------------------------------------------------------
  // POST

  /** Rio_readlineb(&rio, buf, length + 1): the body line, as the C string left in
      buf. None when length + 1 overflows or the line runs past buf. At end of
      input buf keeps the empty line that ended the head. */
  function ReadBody(s: string, length: int): (r: Option<string>)
    requires InInt(length)
    ensures r.Some? ==> '\0' !in r.value && |r.value| < MAXLINE
    ensures r.Some? && s != [] && length >= 0 ==> |r.value| <= length && |r.value| <= |s| && r.value == s[..|r.value|]
  {
    if length == INT_MAX then None
    else
      var maxlen: nat := if length + 1 >= 0 then length + 1 else 0x1_0000_0000_0000_0000 + length + 1;
      var k := LineLength(s, Room(maxlen));
      if k + 1 > MAXLINE then None
      else if k == 0 && maxlen > 1 then Some(CRLF)
      else Some(CStr(s[..k]))
  }

  /** SELECT * FROM users WHERE username=? AND password=?: a NULL never matches. */
  predicate Matches(users: seq<Row>, user: Option<string>, pass: Option<string>) {
    user.Some? && pass.Some? && exists i | 0 <= i < |users| :: users[i].username == user && users[i].password == pass
  }

  /** SELECT * FROM users WHERE username=?. */
  predicate Taken(users: seq<Row>, user: Option<string>) {
    user.Some? && exists i | 0 <= i < |users| :: users[i].username == user
  }

  /** The /home.html branch: log in, then serve the page. */
  function Home(uri: string, body: string, files: map<string, FileInfo>, users: seq<Row>): (r: Sent)
    requires uri != [] && '\0' !in body
  {
    match Forms.Login(body)
    case Fields(user, pass, _) =>
      if !Matches(users, user, pass) then
        ClientError("用户名或密码错误！！！", "401", "Unauthorized", "登录失败")
      else
        var t := ParseUri(uri);
        ServeChecked(t.filename, files, "Not Found", "Book sever couldn't find this file", "409")
    case _ => ClientError("服务器未能识别用户名或密码！！！", "400", "Bad Request", "请求失败")
  }

  const SUCCESS_PAGE: string := "register_success.html"

  /** The /user.html branch: register a new user unless the name is taken, then
      serve the success page. */
  function Register(body: string, env: Env): (r: Reply)
    requires '\0' !in body
    ensures r.users != env.users ==> var f := Forms.Register(body);
      f.Fields? && !Taken(env.users, f.user) && env.insertOk && r.users == env.users + [Row(f.user, f.pass, f.email)]
  {
    match Forms.Register(body)
    case Missing => Keep(ClientError("服务器未解析到用户名、密码或邮箱！！！", "400", "Bad Request", "请求失败"), env)
    case Garbled => Keep(UNDEFINED, env)
    case Fields(user, pass, email) =>
      if Taken(env.users, user) then
        Keep(ClientError("该用户已存在！！！", "409", "Conflict", "注册失败"), env)
      else if !env.insertOk then
        Keep(ClientError("服务器错误！！！", "500", "Internal Server Error", "注册失败"), env)
      else
        var users := env.users + [Row(user, pass, email)];
        if SUCCESS_PAGE !in env.files then Reply([], Undefined, users)   // stat fails: sbuf is never set
        else
          var s := ServeStatic(SUCCESS_PAGE, env.files[SUCCESS_PAGE]);
          Reply(s.out, s.end, users)
  }

  /** The POST branch, after the request line: open the database, read the head for
      Content-Length, read the body line, and dispatch on the URI. */
  function Post(uri: Option<string>, rest: string, env: Env): (r: Reply)
    requires uri.Some? ==> uri.value != []
    ensures !env.dbOpens ==> r == Reply([], Exited, env.users)
  {
    if !env.dbOpens then Keep(Sent([], Exited), env)
    else match PostHeaders(rest, None)
      case None => Keep(Sent([], Hung), env)
      case Some(h) =>
        match h.length
        case None => Keep(UNDEFINED, env)   // no Content-Length: length is never set
        case Some(n) =>
          match ReadBody(rest[h.consumed..], n)
          case None => Keep(UNDEFINED, env)
          case Some(body) =>
            match uri
            case None => Keep(UNDEFINED, env)   // sscanf stored no URI
            case Some(u) =>
              if u == "/home.html" then Keep(Home(u, body, env.files, env.users), env)
              else if u == "/user.html" then Register(body, env)
              else Keep(ClientError(u, "404", "Not Found", "Book sever couldn't find this file"), env)
  }

  // ---------------------------------------------------------------------------
  // doit

  /** doit on everything the client sends: read the request line, split it with
      sscanf and dispatch on the method, ignoring case. */
  function Exchange(input: string, env: Env): (r: Reply)
    ensures input == [] ==> r == Reply([], Done, env.users)
  {
    var k := LineLength(input, LINE_ROOM);
    if k == 0 then Keep(NOTHING, env)
    else
      var words := Words(CStr(input[..k]));
      var rest := input[k..];
      if words == [] then Keep(UNDEFINED, env)   // method is never set
      else
        var verb := words[0];
        var uri := if |words| >= 2 then Some(words[1]) else None;
        if EqualsIgnoreCase(verb, "GET") then
          Keep(Get(uri, rest, env.files), env)
        else if EqualsIgnoreCase(verb, "POST") then Post(uri, rest, env)
        else Keep(ClientError(verb, "501", "Not Implemented", "Book sever does not implement this method"), env)
  }

  // ---------------------------------------------------------------------------
  // What the client reads back

  /** serve_static always starts with the 200 status line, even when it exits
      before sending the file. */
  lemma StaticStatus(filename: string, info: FileInfo)
    ensures StatusOf(ServeStatic(filename, info).out) == Some("200")
  {
    var out := ServeStatic(filename, info).out;
    var head := StaticHead(FileSize(info), GetFiletype(filename));
    assert out == head + out[|head|..];
    StatusOfStatic(FileSize(info), GetFiletype(filename), out[|head|..]);
  }

  /** An error number and a reason that a client can read back as a status line. */
  predicate Readable(errnum: string, shortmsg: string) {
    IsWord(errnum) && shortmsg != [] && !IsSpace(shortmsg[0])
  }

  /** Every status doit sends is readable. */
  lemma StatusesReadable()
    ensures Readable("400", "Bad Request") && Readable("401", "Unauthorized")
    ensures Readable("403", "Forbidden") && Readable("404", "Not found") && Readable("404", "Not Found")
    ensures Readable("409", "Forbidden") && Readable("409", "Conflict")
    ensures Readable("500", "Internal Server Error") && Readable("501", "Not Implemented")
  {
  }

  /** The login page is a static target. */
  lemma HomeFile()
    ensures !Contains("/home.html", CGI_MARK) && ParseUri("/home.html").filename == "./home.html"
  {
    if Contains("/home.html", CGI_MARK) {
      MarkHasQuery("/home.html");
    }
  }

  /** A client error carries its error number as the status code. */
  lemma ErrorStatus(cause: string, errnum: string, shortmsg: string, longmsg: string)
    requires Readable(errnum, shortmsg)
    ensures StatusOf(ClientError(cause, errnum, shortmsg, longmsg).out) == Some(errnum)
  {
    if PageFits(cause, errnum, shortmsg, longmsg) {
      StatusOfError(cause, errnum, shortmsg, longmsg);
    } else {
      StatusOfErrorHead(errnum, shortmsg);
    }
  }

  /** The code the checks before serving a file end in. */
  function FileCode(filename: string, files: map<string, FileInfo>, deniedCode: string): string {
    if filename !in files then "404"
    else if !files[filename].Regular? || !files[filename].ownerRead then deniedCode
    else "200"
  }

  lemma ServeCheckedStatus(filename: string, files: map<string, FileInfo>, missingMsg: string, missingLong: string, deniedCode: string)
    requires Readable("404", missingMsg) && Readable(deniedCode, "Forbidden")
    ensures StatusOf(ServeChecked(filename, files, missingMsg, missingLong, deniedCode).out) == Some(FileCode(filename, files, deniedCode))
  {
    if filename !in files {
      ErrorStatus(filename, "404", missingMsg, missingLong);
    } else if !files[filename].Regular? || !files[filename].ownerRead {
      ErrorStatus(filename, deniedCode, "Forbidden", "Book sever couldn't read the file");
    } else {
      StaticStatus(filename, files[filename]);
    }
  }

  /** How the checks before serving a file end: only a served file can exit, and
      an error page ends cleanly exactly when it fits its buffer. */
  lemma ServeCheckedEnd(filename: string, files: map<string, FileInfo>, missingMsg: string, missingLong: string, deniedCode: string)
    requires deniedCode != "200" && deniedCode != "404"
    ensures var r, code := ServeChecked(filename, files, missingMsg, missingLong, deniedCode), FileCode(filename, files, deniedCode);
      (code == "200" ==> r.end == Done || r.end == Exited)
      && (code != "200" ==> r.end == Done || r.end == Undefined)
      && (code == "404" ==> (r.end == Done <==> PageFits(filename, "404", missingMsg, missingLong)))
      && (code == deniedCode ==> (r.end == Done <==> PageFits(filename, deniedCode, "Forbidden", "Book sever couldn't read the file")))
  {
  }

  /** GET of a static target: 404 when stat fails, 403 for anything but a regular
      file with its owner-read bit, 200 otherwise. Only a served file can end in an
      exit, and an error page ends cleanly exactly when it fits its buffer. */
  lemma GetStaticStatus(uri: string, rest: string, files: map<string, FileInfo>)
    requires uri != [] && !Contains(uri, CGI_MARK) && SkipHeaders(rest).Some?
    requires |ParseUri(uri).filename| < MAXLINE
    ensures StatusOf(Get(Some(uri), rest, files).out) == Some(FileCode(ParseUri(uri).filename, files, "403"))
    ensures var f, r := ParseUri(uri).filename, Get(Some(uri), rest, files);
      (FileCode(f, files, "403") == "200" ==> r.end == Done || r.end == Exited)
      && (FileCode(f, files, "403") != "200" ==> r.end == Done || r.end == Undefined)
      && (FileCode(f, files, "403") == "404" ==> (r.end == Done <==> PageFits(f, "404", "Not found", "Book couldn't find this file")))
      && (FileCode(f, files, "403") == "403" ==> (r.end == Done <==> PageFits(f, "403", "Forbidden", "Book sever couldn't read the file")))
  {
    var t := ParseUri(uri);
    assert t.isStatic;
    assert Get(Some(uri), rest, files) == ServeChecked(t.filename, files, "Not found", "Book couldn't find this file", "403");
    StatusesReadable();
    ServeCheckedStatus(t.filename, files, "Not found", "Book couldn't find this file", "403");
    ServeCheckedEnd(t.filename, files, "Not found", "Book couldn't find this file", "403");
  }

  /** GET of the CGI route runs the adder with the text after '?' as QUERY_STRING;
      no stat check comes first. */
  lemma GetDynamic(uri: string, rest: string, files: map<string, FileInfo>)
    requires uri != [] && |uri| < MAXLINE && Contains(uri, CGI_MARK) && SkipHeaders(rest).Some?
    ensures var t := ParseUri(uri);
      Get(Some(uri), rest, files) == ServeDynamic(t.filename, t.cgiargs, files)
      && (t.filename == ADDER_PATH && ADDER_PATH in files ==>
          Get(Some(uri), rest, files).out == (match AddCgi.Adder(Some(t.cgiargs)) case Printed(o) => o case Overflow => []))
  {
    var t := ParseUri(uri);
    assert "." + uri == t.filename + "?" + t.cgiargs;
    assert |t.filename| < MAXLINE by {
      assert |"." + uri| == |t.filename| + 1 + |t.cgiargs|;
    }
  }

  /** The login branch: 400 without both keys, 401 when no row matches, and then the
      checks on ./home.html with 409 for an unreadable file. */
  lemma HomeStatus(body: string, files: map<string, FileInfo>, users: seq<Row>)
    requires '\0' !in body
    ensures var f := Forms.Login(body); var code := StatusOf(Home("/home.html", body, files, users).out);
      (f.Missing? ==> code == Some("400"))
      && (f.Fields? && !Matches(users, f.user, f.pass) ==> code == Some("401"))
      && (f.Fields? && Matches(users, f.user, f.pass) ==> code == Some(FileCode("./home.html", files, "409")))
  {
    StatusesReadable();
    var f := Forms.Login(body);
    if f.Missing? {
      ErrorStatus("服务器未能识别用户名或密码！！！", "400", "Bad Request", "请求失败");
    } else if !Matches(users, f.user, f.pass) {
      ErrorStatus("用户名或密码错误！！！", "401", "Unauthorized", "登录失败");
    } else {
      HomeFile();
      ServeCheckedStatus("./home.html", files, "Not Found", "Book sever couldn't find this file", "409");
    }
  }

  /** Nobody gets a 200 from /home.html without a row matching both fields. */
  lemma LoginGate(body: string, files: map<string, FileInfo>, users: seq<Row>)
    requires '\0' !in body
    requires StatusOf(Home("/home.html", body, files, users).out) == Some("200")
    ensures var f := Forms.Login(body); f.Fields? && Matches(users, f.user, f.pass)
  {
    HomeStatus(body, files, users);
  }

  /** The registration branch: 400 without all four keys, 409 for a taken name, 500
      when the INSERT fails, and the success page with the new row otherwise. */
  lemma RegisterStatus(body: string, env: Env)
    requires '\0' !in body
    ensures var f := Forms.Register(body); var r := Register(body, env);
      (f.Missing? ==> StatusOf(r.out) == Some("400") && r.users == env.users)
      && (f.Garbled? ==> r.end == Undefined && r.users == env.users)
      && (f.Fields? && Taken(env.users, f.user) ==> StatusOf(r.out) == Some("409") && r.users == env.users)
      && (f.Fields? && !Taken(env.users, f.user) && !env.insertOk ==> StatusOf(r.out) == Some("500") && r.users == env.users)
      && (f.Fields? && !Taken(env.users, f.user) && env.insertOk && SUCCESS_PAGE in env.files ==>
            StatusOf(r.out) == Some("200") && r.users == env.users + [Row(f.user, f.pass, f.email)])
  {
    StatusesReadable();
    var f := Forms.Register(body);
    if f.Missing? {
      ErrorStatus("服务器未解析到用户名、密码或邮箱！！！", "400", "Bad Request", "请求失败");
    } else if f.Fields? {
      if Taken(env.users, f.user) {
        ErrorStatus("该用户已存在！！！", "409", "Conflict", "注册失败");
      } else if !env.insertOk {
        ErrorStatus("服务器错误！！！", "500", "Internal Server Error", "注册失败");
      } else if SUCCESS_PAGE in env.files {
        StaticStatus(SUCCESS_PAGE, env.files[SUCCESS_PAGE]);
      }
    }
  }

  /** Every other POST target is answered with 404 and the URI as the cause. */
  lemma PostOther(u: string, rest: string, env: Env, h: PostHead, n: int, body: string)
    requires u != [] && u != "/home.html" && u != "/user.html" && env.dbOpens
    requires PostHeaders(rest, None) == Some(h) && h.length == Some(n) && InInt(n)
    requires ReadBody(rest[h.consumed..], n) == Some(body)
    ensures Post(Some(u), rest, env) == Keep(ClientError(u, "404", "Not Found", "Book sever couldn't find this file"), env)
    ensures StatusOf(Post(Some(u), rest, env).out) == Some("404")
  {
    var e := ClientError(u, "404", "Not Found", "Book sever couldn't find this file");
    assert Post(Some(u), rest, env) == Keep(e, env);
    assert Readable("404", "Not Found") by { StatusesReadable(); }
    ErrorStatus(u, "404", "Not Found", "Book sever couldn't find this file");
  }

  /** No two rows share a username; NULL names are never equal to anything. */
  predicate UniqueNames(users: seq<Row>) {
    forall i, j | 0 <= i < j < |users| :: users[i].username.Some? ==> users[i].username != users[j].username
  }

  /** The users table only changes by one appended row, and only through a
      registration that found the name free, so names stay unique. */
  lemma PostUsers(uri: Option<string>, rest: string, env: Env)
    requires uri.Some? ==> uri.value != []
    ensures var r := Post(uri, rest, env);
      r.users != env.users ==> uri == Some("/user.html") && |r.users| == |env.users| + 1 && r.users[..|env.users|] == env.users
    ensures UniqueNames(env.users) ==> UniqueNames(Post(uri, rest, env).users)
  {
    var r := Post(uri, rest, env);
    if r.users != env.users {
      var h := PostHeaders(rest, None).value;
      var body := ReadBody(rest[h.consumed..], h.length.value).value;
      assert uri == Some("/user.html") && r == Register(body, env);
      var f := Forms.Register(body);
      var row := Row(f.user, f.pass, f.email);
      assert r.users == env.users + [row];
      assert r.users[..|env.users|] == env.users;
      if UniqueNames(env.users) {
        forall i, j | 0 <= i < j < |r.users| && r.users[i].username.Some?
          ensures r.users[i].username != r.users[j].username
        {
          if j == |env.users| {
            assert r.users[i] == env.users[i];
          }
        }
      }
    }
  }

  // ---------------------------------------------------------------------------
  // The request line

  /** A request line "method uri version" CR LF is split into its words and
      dispatched: GET and POST in any case, every other method answered with 501. */
  lemma ExchangeDispatch(m: string, u: string, v: string, rest: string, env: Env)
    requires IsWord(m) && IsWord(u) && IsWord(v)
    requires var line := m + " " + u + " " + v; '\0' !in line && '\n' !in line && |line| + 2 <= LINE_ROOM
    ensures Exchange(m + " " + u + " " + v + CRLF + rest, env) ==
      if EqualsIgnoreCase(m, "GET") then Keep(Get(Some(u), rest, env.files), env)
      else if EqualsIgnoreCase(m, "POST") then Post(Some(u), rest, env)
      else Keep(ClientError(m, "501", "Not Implemented", "Book sever does not implement this method"), env)
  {
    var line := m + " " + u + " " + v;
    var input := line + CRLF + rest;
    var k := |line| + 2;
    assert LineLength(input, LINE_ROOM) == k && input[..k] == line + CRLF by { LineOfHead(line, rest); }
    assert CStr(line + CRLF) == line + CRLF by { CStrNulFree(line + CRLF); }
    assert Words(line + CRLF) == [m, u, v] by { WordsOfRequestLine(m, u, v); }
    assert input[k..] == rest;
  }

  /** Any method other than GET and POST gets status 501; the page ends cleanly
      exactly when it fits its buffer, which a method of some 6.3 KB does not. */
  lemma NotImplemented(m: string, u: string, v: string, rest: string, env: Env)
    requires IsWord(m) && IsWord(u) && IsWord(v)
    requires var line := m + " " + u + " " + v; '\0' !in line && '\n' !in line && |line| + 2 <= LINE_ROOM
    requires !EqualsIgnoreCase(m, "GET") && !EqualsIgnoreCase(m, "POST")
    ensures var r := Exchange(m + " " + u + " " + v + CRLF + rest, env);
      StatusOf(r.out) == Some("501") && r.users == env.users
      && (r.end == Done <==> PageFits(m, "501", "Not Implemented", "Book sever does not implement this method"))
      && (r.end != Done ==> r.end == Undefined)
  {
    StatusesReadable();
    ExchangeDispatch(m, u, v, rest, env);
    ErrorStatus(m, "501", "Not Implemented", "Book sever does not implement this method");
  }

  /** A GET request line without a URI still reads the head first: at end of input
      the header loop spins, and only a head that ends reaches the unset URI. */
  lemma GetWithoutUri(m: string, rest: string, env: Env)
    requires IsWord(m) && '\0' !in m && '\n' !in m && |m| + 2 <= LINE_ROOM && EqualsIgnoreCase(m, "GET")
    ensures var r := Exchange(m + CRLF + rest, env);
      r.out == [] && r.users == env.users
      && (rest != [] && SkipHeaders(rest).None? ==> r.end == Hung)
      && (rest == [] || SkipHeaders(rest).Some? ==> r.end == Undefined)
  {
    var input := m + CRLF + rest;
    var k := |m| + 2;
    assert LineLength(input, LINE_ROOM) == k && input[..k] == m + CRLF by { LineOfHead(m, rest); }
    assert CStr(m + CRLF) == m + CRLF by { CStrNulFree(m + CRLF); }
    assert Words(m + CRLF) == [m] by { WordsOfMethodOnly(m); }
    assert input[k..] == rest;
  }

  /** "GET" CR LF, one header line, then end of input: the server hangs in
      read_requesthdrs. */
  lemma GetWithoutUriHangs(env: Env)
    ensures Exchange("GET\r\nHost: x\r\n", env) == Reply([], Hung, env.users)
  {
    assert "GET\r\nHost: x\r\n" == "GET" + CRLF + ("Host: x" + CRLF + []);
    assert EqualsIgnoreCase("GET", "GET");
    SkipHeadersLine("Host: x", []);
    GetWithoutUri("GET", "Host: x" + CRLF + [], env);
  }
}
