# Microweb-server in Dafny

This project models the core of Microweb-server, a small threaded HTTP server
in C built on the CS:APP helper library:

- The "robust I/O" package of `csapp.c` (`rio_readn`, `rio_writen`, the buffered
  reader `rio_t` with `rio_readinitb`, `rio_read`, `rio_readnb` and
  `rio_readlineb`), and the async-signal-safe string helpers `sio_strlen`,
  `sio_reverse` and `sio_ltoa`. These are written as imperative Dafny (classes over
  arrays). Each method is proved against a function of the bytes still to be read.
- The request handling of `attached_sever.c`. This covers `doit`'s dispatch on the
  method, `read_requesthdrs` and the `Content-Length` loop of the POST branch,
  `parse_uri`, `get_filetype` and the heads `serve_static` and `clienterror` send.
  It also covers the extraction of form fields with `strstr`/`strtok`/`strcpy`/`strcat`,
  the login and registration decisions, and `serve_dynamic` running the adder with
  `QUERY_STRING` set to the CGI arguments.
  - The whole exchange is a function, `Doit.Exchange`, of the bytes the client
    sends and of the world the server sees: the files, the users table, and
    whether the database opens and an INSERT succeeds.
  - The header loops and the response writers are also methods over a `rio_t` and a
    descriptor (`Server`), each proved to agree with those functions.
- The CGI program `calculate/add.c` (`AddCgi`).

Modules:

| file | module | what |
|---|---|---|
| wrappers.dfy | Wrappers | `Option`, `Min` |
| ctext.dfy | CText | the libc string semantics the core relies on: C strings up to NUL, `strstr`, `strchr`/`index`, `strcasecmp`, `atoi` (through `strtol`), `%d` formatting |
| framing.dfy | Framing | lines ended by CRLF and a head ended by an empty line |
| sio.dfy | Sio | `sio_strlen`, `sio_reverse`, `sio_ltoa` |
| rio.dfy | Rio | scripted descriptors, `rio_readn`, `rio_writen`, `rio_t` |
| http.dfy | Http | the request line, `parse_uri`, `get_filetype`, response heads, the two header loops as functions |
| forms.dfy | Forms | the form-field extraction, byte buffer by byte buffer |
| add.dfy | AddCgi | `calculate/add.c` |
| doit.dfy | Doit | `doit` as a function of the input and the world |
| server.dfy | Server | `read_requesthdrs`, the POST header loop, `clienterror` and `serve_static` as methods |

How a connection ends is one of four outcomes (`Doit.End`):

- `Done`: `doit` returns.
- `Exited`: the process exits, through `unix_error` when a wrapper fails or when
  the database does not open.
- `Hung`: a header loop spins forever at end of input.
- `Undefined`: the C code has undefined behaviour, such as reading an uninitialised
  buffer or pointer, a signed overflow, or a write past an array.

## Model

| member | source | states |
|---|---|---|
| Sio.StrLen | csapp.c:36-43 | returns the index of the first NUL: every byte before it is non-NUL, so it is the length of the C string |
| Sio.Reverse | csapp.c:3-13 | the bytes before the NUL end up in reverse order; the NUL and everything after it are unchanged |
| Sio.ReversedTwice | csapp.c:3-13 | reversing twice gives the original text back |
| Sio.LtoaUnreversed | csapp.c:18-29 | the digits of \|v\| least significant first, then '-' when v is negative: the reverse of the text of `v`, with the rest of the buffer kept |
| Sio.Ltoa | csapp.c:16-33 | the buffer starts with the base-`b` text of `v` (a '-' before the digits when negative), followed by a NUL; the bytes after that NUL are left as they were |
| Rio.Descriptor.Read | csapp.c:588 | `read(2)` as the script says: at most `n` bytes, in stream order; 0 only at end of input; EINTR and other errors consume nothing |
| Rio.Descriptor.Write | csapp.c:561 | `write(2)` as the script says: a non-empty prefix of the data is appended to what was sent, or -1 with nothing sent |
| Rio.ReadN | csapp.c:530-551 | on success stores exactly min(n, bytes left) bytes, in order, and consumes just those; fewer than n only at end of file; -1 only after a read error that is not EINTR |
| Rio.WriteN | csapp.c:553-572 | either all n bytes are sent, in order, and the result is n, or -1 after a strict prefix was sent; EINTR and short writes are retried |
| Rio.RioBuffer.constructor | csapp.c:613-618 | an empty buffer bound to the descriptor; the bytes still to read are those of the descriptor |
| Rio.RioBuffer.Refill | csapp.c:586-599 | refills only an empty buffer, retrying after EINTR; no byte still to be handed out is lost or reordered; 0 only at end of input |
| Rio.RioBuffer.Take | csapp.c:601-607 | hands out min(n, rio_cnt) buffered bytes in order and advances the cursor past them |
| Rio.RioBuffer.Read | csapp.c:582-608 | hands out min(n, buffered bytes), refilling first only when the buffer is empty; the bytes are the next ones of the stream; 0 only at end of input |
| Rio.RioBuffer.ReadNB | csapp.c:623-639 | as `rio_readn`, but through the buffer: min(n, bytes left) bytes of the stream in order, -1 only on a read error |
| Rio.RioBuffer.ReadLineB | csapp.c:641-670 | stores the line up to and including the first newline, at most maxlen - 1 bytes, then a NUL; returns its length (`LineLength`) and consumes exactly it; 0 with the buffer untouched at end of input |
| Rio.LinesConcat | csapp.c:641-670 | cutting a stream into `rio_readlineb` lines and joining them gives the stream back |
| Rio.LinesShape | csapp.c:641-670 | each line is non-empty, at most maxlen - 1 bytes long, and only its last byte can be a newline |
| Http.WordsOfRequestLine | attached_sever.c:48 | `sscanf("%s %s %s")` on "m u v\r\n" yields the method, the URI and the version |
| Http.WordsOfMethodOnly | attached_sever.c:48 | on a request line with only a method, `sscanf` stores only the method |
| Http.ParseUri | attached_sever.c:286-317 | static exactly when the URI lacks "calculate/add?"; a static file name is "." + uri, with "index.html" added exactly when the URI ends in '/', and no arguments; a dynamic one splits "." + uri at its first '?' into the file name and the arguments |
| Http.FiletypeFirstMatch | attached_sever.c:345-358 | the MIME type of the first of .html, .gif, .png, .jpg, .ico that occurs in the name |
| Http.FiletypeDefault | attached_sever.c:345-358 | text/plain exactly when none of the five extensions occurs in the name |
| Http.StaticHeadFrame | attached_sever.c:325-333 | the four head lines of serve_static form a CRLF block whose first empty line ends the head, whatever body follows |
| Http.StaticLengthReadsBack | attached_sever.c:330-331 | the Content-length line carries the file size so that `atoi` reads it back |
| Http.StatusOfStatic | attached_sever.c:326-327 | a client reads status 200 from serve_static's reply |
| Http.ErrorHeadFrame | attached_sever.c:379-382 | clienterror's two head lines form a CRLF block whose first empty line ends the head |
| Http.StatusOfError | attached_sever.c:375-466 | a client reads the error number from clienterror's reply |
| Http.StatusOfErrorHead | attached_sever.c:379-382 | a client reads the error number from clienterror's head alone, as sent when its page then overruns the buffer |
| Http.SkipHeadersEnd | attached_sever.c:267-279 | where read_requesthdrs stops, the bytes just read are an empty CRLF line |
| Http.SkipHeadersOfBlock | attached_sever.c:267-279 | on a head of header lines then an empty line, read_requesthdrs consumes exactly the head, whatever body follows |
| Http.PostHeadersEndWhereHeadersEnd | attached_sever.c:99-112 | the POST header loop stops exactly where read_requesthdrs would |
| Http.LengthFromHeader | attached_sever.c:105-111 | a "Content-Length: n" line sets the length to n |
| Http.PostHeadersWithoutLength | attached_sever.c:99-112 | header lines without "Content-Length: " leave the length as it was, and the loop consumes exactly the head they make |
| Http.PostHeadersOfBlock | attached_sever.c:99-112 | the length is n for a head whose last "Content-Length: n" line stands anywhere: the lines before it may set any length and are overridden, and the lines after it carry none; the loop consumes exactly the head |
| Forms.Strtok | attached_sever.c:125-126 | `strtok`: a token, when found, lies between the start point and the saved position; the buffer keeps its length and its final NUL, and is unchanged when no token is found |
| Forms.StrtokToken | attached_sever.c:125-126 | a token found is non-empty and holds no delimiter |
| Forms.Login | attached_sever.c:119-129 | the fields are missing exactly when "username=" or "password=" does not occur in the body; a login never carries an email |
| Forms.LoginCanonical | attached_sever.c:119-129 | on "username=u&password=p" with plain values, the extraction yields u and p |
| Forms.Register | attached_sever.c:171-194 | the fields are missing exactly when one of the four keys does not occur in the body; otherwise an email is formed |
| Forms.Assemble | attached_sever.c:188-194 | when all four keys are present the result always carries an email, or undefined behaviour |
| Forms.AssembleCanonical | attached_sever.c:188-194 | with em and "%40x" in place, the email becomes em + "@" + x and the bytes before em are unchanged |
| Forms.RegisterCanonical | attached_sever.c:171-194 | on "username=u&password=p&emailname=e&email_suffix=%40x" with plain values, the extraction yields u, p and e@x |
| AddCgi.AdderUnset | calculate/add.c:9-13 | with QUERY_STRING unset the program prints exactly "QUERY_STRING is empty\n", and no set query, whatever it holds, gets that reply |
| AddCgi.AdderReplies | calculate/add.c:16-32 | a query without '&' gets exactly the "invalid query string" line, and only such a query does; a query with '&' that prints gets the 200 JSON head then "sum=" |
| AddCgi.AdderAt | calculate/add.c:21-32 | with the first '&' at i, the program prints the head and the sum of `atoi` on the two sides, or overflows when the sum does not fit an int |
| AddCgi.AdderSum | calculate/add.c:16-32 | on the query "a&b" the program prints the head and "sum=" followed by a + b in decimal |
| AddCgi.SumReadsBack | calculate/add.c:32 | `atoi` of what follows "sum=" is the sum |
| AddCgi.AdderHead | calculate/add.c:30-32 | the first empty line of the output ends the head, so "sum=..." is the body |
| Doit.FileSize | attached_sever.c:67 | the size serve_static receives fits an int and, for a regular file, is at most the file's length |
| Doit.ServeStatic | attached_sever.c:319-342 | the reply always starts with the head; it completes exactly for a regular, owner-readable file of positive size, and the process exits otherwise (open or mmap fails) |
| Doit.StaticStatus | attached_sever.c:319-342 | a client reads status 200 from serve_static, even when it then exits |
| Doit.ServeDynamic | attached_sever.c:360-373 | only the adder runs, with the CGI arguments as its query; any other program path writes nothing |
| Doit.ClientError | attached_sever.c:375-466 | the head always goes out first; the reply ends cleanly exactly when the page, formatted after the head, fits `buf[MAXLINE]`, and otherwise sprintf writes past the buffer (undefined) with only the head sent |
| Doit.ServeCheckedEnd | attached_sever.c:58-67 | a served file ends cleanly or exits; a 404 or denial page never exits, and ends cleanly exactly when it fits its buffer, undefined otherwise |
| Doit.ServeChecked | attached_sever.c:58-67 | a file stat cannot find gets a 404 page naming the file |
| Doit.ServeCheckedStatus | attached_sever.c:58-67 | the status a client reads is 404 for a missing file, the denial code for one that is not a regular owner-readable file, and 200 otherwise |
| Doit.ErrorStatus | attached_sever.c:375-466 | a client reads the error number from any clienterror reply of the server, whether the page fits its buffer or only the head went out |
| Doit.Get | attached_sever.c:50-79 | the head is read before the URI is looked at: no data after the request line is undefined, a head that never ends hangs, and a request line without a URI is undefined once the head has ended |
| Doit.GetStaticStatus | attached_sever.c:50-68 | a static GET replies with the status ServeChecked's checks give; it only exits after status 200, and a 404 or 403 page ends cleanly exactly when it fits clienterror's buffer, undefined otherwise |
| Doit.GetDynamic | attached_sever.c:54-78 | a dynamic GET runs serve_dynamic with parse_uri's file name and arguments; for the adder the reply is the adder's output |
| Doit.GetWithoutUri | attached_sever.c:45-54 | a GET request line without a URI hangs when the head never ends, and is otherwise undefined; nothing is written and the users are unchanged |
| Doit.GetWithoutUriHangs | attached_sever.c:45-54 | "GET\r\nHost: x\r\n" then end of input hangs in read_requesthdrs |
| Doit.ReadBody | attached_sever.c:113 | the body line is a NUL-free C string shorter than MAXLINE; read from non-empty input with a non-negative length, it is a prefix of the input at most length bytes long |
| Doit.HomeStatus | attached_sever.c:116-167 | login: 400 when a field is missing, 401 when no user row matches, otherwise the file checks with 409 for an unreadable file |
| Doit.LoginGate | attached_sever.c:116-167 | status 200 is only ever read after a login that matches a user row |
| Doit.Register | attached_sever.c:168-252 | the users table changes only by one new row, only for new, well-formed, non-taken names, and only when the INSERT succeeds |
| Doit.RegisterStatus | attached_sever.c:168-252 | registration: 400 when a field is missing, 409 when the name is taken, 500 when the INSERT fails, otherwise a new row and status 200 |
| Doit.Post | attached_sever.c:80-96 | when the database does not open, nothing is written and the process exits |
| Doit.PostOther | attached_sever.c:253-256 | a POST to any other URI gets a 404 page naming the URI |
| Doit.PostUsers | attached_sever.c:80-257 | a POST only ever appends one row to the users table, for /user.html, and keeps user names unique |
| Doit.Exchange | attached_sever.c:33-48 | a connection that sends nothing gets nothing and doit returns |
| Doit.ExchangeDispatch | attached_sever.c:45-265 | on a request line "m u v", doit dispatches on the method ignoring case: GET, POST, anything else |
| Doit.NotImplemented | attached_sever.c:258-263 | any other method gets status 501 with the users unchanged; doit returns exactly when the page, which names the method, fits clienterror's buffer, and the reply is undefined otherwise |
| Server.SendAt | csapp.c:685-689 | one Rio_writen of a piece of a reply: the bytes sent so far are a prefix of the reply, and the whole piece when no write fails |
| Server.BlankLine | attached_sever.c:273 | `strcmp(buf, "\r\n") == 0` exactly when the buffer holds the empty CRLF line |
| Server.HeadLine | attached_sever.c:271-276 | one Rio_readlineb of a header: the line is the next `LineLength` bytes of the input, and its emptiness is decided on the C string; at end of input (0) nothing is consumed, the buffer keeps its old line and it is not blank, so the caller's loop compares that line forever |
| Server.ReadRequestHdrs | attached_sever.c:267-279 | stops exactly where `Http.SkipHeaders` ends the head and consumes just it; hangs exactly when the head never ends; exits only on a read error |
| Server.ReadPostHeaders | attached_sever.c:99-112 | stops where `Http.PostHeaders` ends the head, with the Content-Length it finds; hangs otherwise; exits only on a read error |
| Server.ClientError | attached_sever.c:375-466 | what is sent is a prefix of `Doit.ClientError`'s reply, all of it unless a write fails, in which case the process exits; otherwise it ends as `Doit.ClientError` does, undefined when the page overruns `buf` |
| Server.ServeStatic | attached_sever.c:319-342 | what is sent is a prefix of `Doit.ServeStatic`'s reply, all of it unless a write fails; the ending is the one `Doit.ServeStatic` gives |

## Left out

- Threads: `main`, the accept loop and `handle_client` (attached_sever.c:19-30) are left out. Each connection is modelled on its own, with no concurrency between threads; the socket is a scripted descriptor.
- book_sever.c is not part of this model, nor are the wrappers in wrap_process.c beyond what a failing wrapper does (the process exits).
- The `printf` and `fprintf` logging is left out. The model takes the server's stdout to be a terminal, so that it is line-buffered and never reaches the client. Were stdout a file or a pipe, a dynamic request whose `execve` fails would send the child's inherited stdio buffer, with earlier logged request lines and POST bodies (attached_sever.c:114), to the client: the child has already redirected stdout to the socket (attached_sever.c:369) and leaves through `unix_error`'s `exit(0)` (wrap_error.c:7), which flushes it.
- SQLite: `sqlite3_open`, the SELECT and the INSERT are oracles. Whether the database opens and whether the INSERT succeeds are inputs, and the users table is a list of rows. A failing `sqlite3_prepare_v2` is not modelled.
- Descriptors: end of input is sticky. Once the scripted reads run out, every further read returns 0.
- Descriptors: the scripted `write(2)` never returns 0. Once the script runs out, every write is accepted in full.
- Undefined behaviour: each outcome `Undefined` stands for a C construct whose effect the standard leaves open. These are the places where it is used:
  - an uninitialised `method`, `uri`, `length` or `sbuf`;
  - `length + 1` overflowing, or the body line running past `buf[MAXLINE]` (`Doit.ReadBody`);
  - clienterror's page overrunning its `buf[MAXLINE]` (`Doit.ClientError`);
  - a file name running past `filename[MAXLINE]`;
  - a signed overflow in add.c;
  - a NULL field pointer in the registration;
  - in the e-mail assembly (`Forms.Assemble`): `em_su + 3` lying past the body's NUL, a `strcat` whose destination lies inside the text it copies, or an address that runs past `buf`.

  Any other behaviour at those points would be just as conforming. The model does not say which one a compiler picks.
- Http.PostHeaders: the `strcpy(temp, type + 2)` of the Content-Length branch writes through an uninitialised pointer. The model takes the length to be `atoi` of what follows ": ", as if `temp` pointed to a buffer.
- Forms.Assemble: the overlapping `strcpy(em_su, em_su + 3)`, and a `strcat(em, em_su)` whose appended bytes reach into the suffix they copy (in a browser's field order, a suffix of 13 bytes or more), are modelled as front-to-back byte copies, although C leaves both undefined.
- Doit.ServeStatic: `open(2)` (attached_sever.c:336) is taken to succeed exactly when the owner-read bit that the GET branch checks (attached_sever.c:62) is set. That is, the server runs as the owner of every file (and not as root), and no file changes between `stat` and `open`.
- Doit.ServeDynamic: a successful `execve` is modelled as the adder's path being present among the files (`ADDER_PATH in files`). Any other program path is modelled as an `execve` that fails in the child, which writes nothing. `fork`, `dup2` and `wait` are not modelled separately.
- Doit.ServeDynamic: `Env.files` is keyed by the path string exactly as `parse_uri` builds it. Two spellings of one file (`"./x"` and `"x"`) are different keys.
- Doit.Exchange: a read error inside a `Rio_*` wrapper exits the whole process (wrap_error.c:4-8). `Exchange` does not model it; it assumes reads succeed. The `Server` methods do model it, as `Exited` after a read fault.
- Doit.ClientError: clienterror's fixed HTML template (attached_sever.c:385-465) is not modelled. Only the head and the two lines that carry the arguments are (attached_sever.c:456-457). The template's length enters only through `Http.PAGE_FIXED`, in deciding whether the page fits its buffer.
- Http.ErrorPage: the same fixed HTML template is left out of the page.
- Server.ClientError: it sends the head and the lines of `Http.ErrorPage`, not the fixed HTML around them.
- Http.PageFits: the template's conversion specifications `% {`, `% 50%` and `%;` (attached_sever.c:401-403, 454) are invalid, which section 7.21.6.1 of the C11 standard makes undefined. The model takes glibc's behaviour: an unknown conversion is printed as written and consumes no argument, and `% 50%` prints a single `%`. That gives `PAGE_FIXED`, the 1793 bytes around the arguments.
- Http.PageFits: the arguments are measured in characters, not UTF-8 bytes. The only arguments that can be long are request bytes; the messages with non-ASCII text are short constants, so whether a page fits comes out the same.
- Sio.Ltoa: requires `LONG_MIN < v`, because `v = -v` (csapp.c:22) overflows a long for LONG_MIN. It also requires a buffer large enough for the text and a base between 2 and 36; the source checks neither.
- AddCgi.Adder: the exit status is not modelled. It is always 0: `exit(0)` at calculate/add.c:12 and :19, and `return 0` on success. serve_dynamic's `Wait(NULL)` (attached_sever.c:372) discards it anyway.
- AddCgi.Adder: the query is a Dafny string, so a `'\0'` inside it is not excluded. The C program would stop reading at the first NUL.
