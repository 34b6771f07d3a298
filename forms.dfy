/**
 * How doit pulls the form fields out of a POST body (attached_sever.c:116-194):
 * strstr finds each "key=" in the body held in `buf`, strtok cuts the value out
 * by writing NULs into that same buffer, and for a registration strcpy and
 * strcat assemble the e-mail address in place. The buffer is modelled as the
 * body text followed by its NUL, growing when a write runs past that NUL; the
 * fields are the C strings found at the saved pointers once all writes are done,
 * which is when sqlite reads them.
 */
module Forms {
  import opened Wrappers
  import opened CText

  /** The capacity of `buf` in doit (MAXLINE). */
  const BUF_SIZE: nat := 8192

  /** A buffer whose last byte is a NUL, so every C string in it ends inside it. */
  predicate Terminated(b: string) {
    b != [] && b[|b| - 1] == '\0'
  }

  /** The C string that starts at index `i` of the buffer. */
  function StrAt(b: string, i: nat): (r: string)
    requires i <= |b|
    ensures i + |r| <= |b| && r == b[i..i + |r|] && '\0' !in r
    ensures Terminated(b) && i < |b| ==> i + |r| < |b| && b[i + |r|] == '\0'
  {
    CStr(b[i..])
  }

  /** The buffer after `s` is written from index `i` on; it grows when the write runs past its end. */
  function Put(b: string, i: nat, s: string): (r: string)
    requires i <= |b|
    ensures |r| == if i + |s| < |b| then |b| else i + |s|
    ensures r[..i] == b[..i] && r[i..i + |s|] == s && r[i + |s|..] == (if i + |s| < |b| then b[i + |s|..] else [])
  {
    b[..i] + s + (if i + |s| < |b| then b[i + |s|..] else [])
  }

  /** The first index at or after `i` whose character is not `d`: what strtok skips. */
  function Skip(b: string, i: nat, d: char): (r: nat)
    requires i <= |b|
    decreases |b| - i
    ensures i <= r <= |b| && (r < |b| ==> b[r] != d)
    ensures forall j | i <= j < r :: b[j] == d
  {
    if i < |b| && b[i] == d then Skip(b, i + 1, d) else i
  }

  /** The buffer after a strtok call, the token it returned (NULL is None), and where the next call resumes. */
  datatype Tok = Tok(buf: string, token: Option<nat>, save: nat)

  /** strtok(s, d) with `s` at index `from` (or strtok(NULL, d) resuming there): skips the
      delimiters, returns NULL at the end of the string, otherwise cuts the token at the
      next delimiter by writing a NUL over it. */
  function Strtok(b: string, from: nat, d: char): (r: Tok)
    requires Terminated(b) && from < |b| && d != '\0'
    ensures Terminated(r.buf) && |r.buf| == |b| && r.save < |b|
    ensures r.token.None? ==> r.buf == b
    ensures r.token.Some? ==> from <= r.token.value < r.save
  {
    var i := Skip(b, from, d);
    if b[i] == '\0' then Tok(b, None, i) else Cut(b, i, d)
  }

  /** The token strtok returns at index `i`: cut at its first delimiter, if any. */
  function Cut(b: string, i: nat, d: char): (r: Tok)
    requires Terminated(b) && i < |b| && b[i] != '\0' && d != '\0' && b[i] != d
    ensures Terminated(r.buf) && |r.buf| == |b| && i < r.save < |b| && r.token == Some(i)
  {
    var t := StrAt(b, i);
    match IndexOf(t, d)
    case None => Tok(b, Some(i), i + |t|)
    case Some(k) => Tok(b[i + k := '\0'], Some(i), i + k + 1)
  }

  /** The token strtok returns is a non-empty string free of the delimiter. */
  lemma StrtokToken(b: string, from: nat, d: char)
    requires Terminated(b) && from < |b| && d != '\0'
    ensures var r := Strtok(b, from, d);
      r.token.Some? ==> StrAt(r.buf, r.token.value) != [] && d !in StrAt(r.buf, r.token.value)
  {
    var i := Skip(b, from, d);
    if b[i] != '\0' {
      assert Strtok(b, from, d) == Cut(b, i, d);
      CutToken(b, i, d);
    }
  }

  lemma CutToken(b: string, i: nat, d: char)
    requires Terminated(b) && i < |b| && b[i] != '\0' && d != '\0' && b[i] != d
    ensures StrAt(Cut(b, i, d).buf, i) != [] && d !in StrAt(Cut(b, i, d).buf, i)
  {
    var t := StrAt(b, i);
    assert t[0] == b[i];
    match IndexOf(t, d)
    case None =>
    case Some(k) => CutAt(b, i, k);
  }

  /** A NUL written `k` bytes into the C string at `i` shortens it to its first `k` bytes. */
  lemma CutAt(b: string, i: nat, k: nat)
    requires i <= |b| && k < |StrAt(b, i)|
    ensures StrAt(b[i + k := '\0'], i) == StrAt(b, i)[..k]
    ensures Terminated(b) ==> i + k + 1 < |b| && Terminated(b[i + k := '\0'])
  {
    var t := StrAt(b, i);
    var c := b[i + k := '\0'];
    if Terminated(b) {
      assert i + |t| < |b|;
      assert c[|b| - 1] == b[|b| - 1];
    }
    assert c[i..] == t[..k] + ['\0'] + c[i + k + 1..];
    CStrTerminated(t[..k], c[i + k + 1..]);
  }

  /** strtok(key, "=") then strtok(NULL, "&"): the pair of calls that takes the value
      of the field whose key strstr found at index `k`. */
  function Field(b: string, k: nat): (r: Tok)
    requires Terminated(b) && k < |b|
    ensures Terminated(r.buf) && |r.buf| == |b| && r.save < |b|
    ensures r.token.Some? ==> r.token.value < |b|
  {
    var t := Strtok(b, k, '=');
    Strtok(t.buf, t.save, '&')
  }

  /** The field values a POST handler binds into its SQL statement: None is a NULL
      pointer, which sqlite binds as SQL NULL. */
  datatype Form =
    | Fields(user: Option<string>, pass: Option<string>, email: Option<string>)
    | Missing   // a "key=" strstr looks for is absent
    | Garbled   // a NULL pointer dereference, a read past the body, or an overlapping copy

  /** The C string at a token pointer. */
  function Value(b: string, tok: Option<nat>): Option<string>
    requires tok.Some? ==> tok.value <= |b|
  {
    match tok
    case None => None
    case Some(i) => Some(StrAt(b, i))
  }

  /** The /home.html branch: strstr for "username=" and "password=", then
      strtok(username, "="), strtok(NULL, "&"), strtok(password, "="), strtok(NULL, "&"). */
  function Login(body: string): (r: Form)
    requires '\0' !in body
    ensures r.Missing? <==> !Contains(body, "username=") || !Contains(body, "password=")
    ensures r.Fields? ==> r.email.None?
  {
    var b := body + ['\0'];
    match (FindSub(body, "username="), FindSub(body, "password="))
    case (Some(u), Some(p)) =>
      var user := Field(b, u);
      var pass := Field(user.buf, p);
      Fields(Value(pass.buf, user.token), Value(pass.buf, pass.token), None)
    case _ => Missing
  }

  /** The /user.html branch: the four strstr calls, eight strtok calls, then
      strcpy(em_su, em_su + 3) to drop the "%40", strcat(em, "@") and strcat(em, em_su),
      all in the request buffer. Copies run front to back, which is what they do when
      the destination lies before the source; a copy onto a later overlapping place is
      undefined and reported as Garbled. */
  function Register(body: string): (r: Form)
    requires '\0' !in body
    ensures r.Missing? <==> (!Contains(body, "username=") || !Contains(body, "password=")
                              || !Contains(body, "emailname=") || !Contains(body, "email_suffix="))
    ensures r.Fields? ==> r.email.Some?
  {
    match (FindSub(body, "username="), FindSub(body, "password="), FindSub(body, "emailname="), FindSub(body, "email_suffix="))
    case (Some(u), Some(p), Some(e), Some(x)) => RegisterFields(body + ['\0'], u, p, e, x)
    case _ => Missing
  }

  /** The four strtok extractions and the e-mail assembly, once strstr has found the four keys
      at `u`, `p`, `e` and `x` of the NUL-terminated body `b`. */
  function RegisterFields(b: string, u: nat, p: nat, e: nat, x: nat): (r: Form)
    requires Terminated(b) && u < |b| && p < |b| && e < |b| && x < |b|
    ensures !r.Missing? && (r.Fields? ==> r.email.Some?)
  {
    var user := Field(b, u);
    var pass := Field(user.buf, p);
    var em := Field(pass.buf, e);
    var su := Field(em.buf, x);
    if em.token.None? || su.token.None? then Garbled
    else Assemble(su.buf, em.token.value, su.token.value, user.token, pass.token)
  }

  /** strcpy(b + dst, b + src): the C string at `src`, with its NUL, copied front to back to `dst`. */
  function Strcpy(b: string, dst: nat, src: nat): (r: string)
    requires dst <= |b| && src <= |b|
    ensures |r| >= |b|
  {
    Put(b, dst, StrAt(b, src) + ['\0'])
  }

  /** strcat(b + dst, s): `s` and a NUL written over the NUL that ends the C string at `dst`. */
  function Strcat(b: string, dst: nat, s: string): (r: string)
    requires dst <= |b|
    ensures |r| >= |b|
  {
    Put(b, dst + |StrAt(b, dst)|, s + ['\0'])
  }

  /** The e-mail assembly of the /user.html branch, on the buffer strtok left: `em` and
      `su` index the e-mail name and suffix tokens; `user` and `pass` are read at the end. */
  function Assemble(b: string, em: nat, su: nat, user: Option<nat>, pass: Option<nat>): (r: Form)
    requires Terminated(b) && em < |b| && su < |b|
    requires user.Some? ==> user.value < |b|
    requires pass.Some? ==> pass.value < |b|
    ensures !r.Missing? && (r.Fields? ==> r.email.Some?)
  {
    if su + 3 >= |b| then Garbled   // em_su + 3 lies past the NUL that ends the body
    else
      var b1 := Strcpy(b, su, su + 3);   // strcpy(em_su, em_su + 3)
      var b2 := Strcat(b1, em, "@");     // strcat(em, "@")
      var s := StrAt(b2, su);            // strcat(em, em_su) reads em_su ...
      var end := em + |StrAt(b2, em)|;   // ... and writes from the end of em
      if su < end <= su + |s| then Garbled
      else
        var b3 := Strcat(b2, em, s);
        if |b3| > BUF_SIZE then Garbled   // past the end of buf
        else Fields(Value(b3, user), Value(b3, pass), Some(StrAt(b3, em)))
  }

  // ---------------------------------------------------------------------------
  // The forms a browser sends

  /** `w` lies in the buffer at index `i`. */
  predicate At(b: string, i: nat, w: string) {
    i + |w| <= |b| && b[i..i + |w|] == w
  }

  /** A write elsewhere leaves it there. */
  lemma AtUpdate(b: string, i: nat, w: string, j: nat, c: char)
    requires At(b, i, w) && j < |b| && (j < i || i + |w| <= j)
    ensures At(b[j := c], i, w)
  {
    assert b[j := c][i..i + |w|] == b[i..i + |w|];
  }

  /** A string written with a NUL after it is the C string found there. */
  lemma StrAtIs(b: string, i: nat, w: string)
    requires At(b, i, w + ['\0']) && '\0' !in w
    ensures StrAt(b, i) == w
  {
    assert b[i..] == w + ['\0'] + b[i + |w| + 1..];
    CStrTerminated(w, b[i + |w| + 1..]);
  }

  /** A C string reaches at least as far as its first NUL. */
  lemma StrAtLonger(b: string, i: nat, n: nat)
    requires i + n <= |b| && '\0' !in b[i..i + n]
    ensures |StrAt(b, i)| >= n
  {
  }

  /** strtok starting on a token that holds the delimiter `k` bytes in. */
  lemma {:induction false} StrtokFound(b: string, from: nat, d: char, k: nat)
    requires Terminated(b) && from < |b| && d != '\0'
    requires b[from] != d && b[from] != '\0' && IndexOf(StrAt(b, from), d) == Some(k)
    ensures Strtok(b, from, d).token == Some(from)
    ensures Strtok(b, from, d).save == from + k + 1
    ensures Strtok(b, from, d).buf == b[from + k := '\0']
  {
    assert Strtok(b, from, d) == Cut(b, from, d);
  }

  /** strtok at a token `w` followed by the delimiter cuts it there. */
  lemma StrtokCut(b: string, from: nat, d: char, w: string)
    requires Terminated(b) && d != '\0' && w != [] && d !in w && '\0' !in w
    requires At(b, from, w + [d])
    ensures from + |w| + 1 < |b|
    ensures Strtok(b, from, d).token == Some(from)
    ensures Strtok(b, from, d).save == from + |w| + 1
    ensures Strtok(b, from, d).buf == b[from + |w| := '\0']
  {
    AtIndex(b, from, w + [d], |w|);
    AtIndex(b, from, w + [d], 0);
    CutIndex(b, from, d, w);
    StrtokFound(b, from, d, |w|);
  }

  /** What lies at `i` is what the buffer holds there. */
  lemma AtIndex(b: string, i: nat, w: string, k: nat)
    requires At(b, i, w) && k < |w|
    ensures b[i + k] == w[k]
  {
    assert b[i..i + |w|][k] == w[k];
  }

  /** The delimiter after `w` is the first one in the C string there. */
  lemma CutIndex(b: string, from: nat, d: char, w: string)
    requires d != '\0' && d !in w && '\0' !in w && At(b, from, w + [d])
    ensures IndexOf(StrAt(b, from), d) == Some(|w|)
  {
    var t := StrAt(b, from);
    assert '\0' !in b[from..from + |w| + 1];
    StrAtLonger(b, from, |w| + 1);
    assert t[..|w| + 1] == w + [d];
    IndexOfAt(t, d, |w|);
  }

  /** strtok at a last token `w`, ended by the NUL, returns it without a cut. */
  lemma StrtokEnd(b: string, from: nat, d: char, w: string)
    requires Terminated(b) && d != '\0' && w != [] && d !in w && '\0' !in w
    requires At(b, from, w + ['\0'])
    ensures Strtok(b, from, d).buf == b && Strtok(b, from, d).token == Some(from)
  {
    assert b[from] == w[0];
    assert b[from..][0] == w[0];
    StrAtIs(b, from, w);
  }

  /** A field value a browser sends in a form: not empty and free of the separators. */
  predicate PlainValue(v: string) {
    v != [] && '&' !in v && '=' !in v && '\0' !in v
  }

  /** The NUL strtok writes over the delimiter ends the token there. */
  lemma AtCut(b: string, i: nat, w: string, d: char)
    requires At(b, i, w + [d])
    ensures At(b[i + |w| := '\0'], i, w + ['\0'])
  {
    assert b[i + |w| := '\0'][i..i + |w| + 1] == b[i..i + |w|] + ['\0'];
  }

  /** Two writes elsewhere leave it there. */
  lemma AtUpdate2(b: string, i: nat, w: string, j1: nat, j2: nat)
    requires At(b, i, w) && j1 < |b| && j2 < |b|
    requires (j1 < i || i + |w| <= j1) && (j2 < i || i + |w| <= j2)
    ensures At(b[j1 := '\0'][j2 := '\0'], i, w)
  {
    AtUpdate(b, i, w, j1, '\0');
    AtUpdate(b[j1 := '\0'], i, w, j2, '\0');
  }

  /** The second strtok of a field resumes where the first one left the buffer. */
  lemma FieldOf(b: string, k: nat, j: nat, c: string)
    requires Terminated(b) && k < |b|
    requires Strtok(b, k, '=').buf == c && Strtok(b, k, '=').save == j
    ensures Terminated(c) && j < |c| && Field(b, k) == Strtok(c, j, '&')
  {
  }

  /** A field "key=v&" found at `k` gives the token `v` at `j`, cut at the '=' (which
      at `cut`, turns the buffer into `c`) and at the '&'. */
  lemma FieldMid(b: string, k: nat, key: string, v: string, cut: nat, j: nat, c: string)
    requires Terminated(b) && PlainValue(key) && PlainValue(v)
    requires At(b, k, key + "=") && At(b, j, v + "&")
    requires cut == k + |key| && j == cut + 1 && c == b[cut := '\0']
    ensures j + |v| < |b|
    ensures Field(b, k).token == Some(j)
    ensures Field(b, k).buf == c[j + |v| := '\0']
    ensures At(Field(b, k).buf, j, v + ['\0'])
  {
    AtUpdate(b, j, v + "&", cut, '\0');
    AtCut(c, j, v, '&');
    StrtokCut(c, j, '&', v);
    StrtokCut(b, k, '=', key);
    FieldOf(b, k, j, c);
  }

  /** A last field "key=v" found at `k` gives the token `v` at `j`, cut only at the '='. */
  lemma FieldLast(b: string, k: nat, key: string, v: string, cut: nat, j: nat, c: string)
    requires Terminated(b) && PlainValue(key) && PlainValue(v)
    requires At(b, k, key + "=") && At(b, j, v + ['\0'])
    requires cut == k + |key| && j == cut + 1 && c == b[cut := '\0']
    ensures Field(b, k).token == Some(j)
    ensures Field(b, k).buf == c
    ensures At(Field(b, k).buf, j, v + ['\0'])
  {
    AtUpdate(b, j, v + ['\0'], cut, '\0');
    StrtokEnd(c, j, '&', v);
    StrtokCut(b, k, '=', key);
    FieldOf(b, k, j, c);
  }

  /** The keys doit looks for are plain words. */
  lemma KeysPlain()
    ensures PlainValue("username") && PlainValue("password")
    ensures PlainValue("emailname") && PlainValue("email_suffix")
  {
  }

  /** The body of the login form a browser posts to /home.html. */
  function LoginBody(u: string, p: string): string {
    "username=" + u + "&password=" + p
  }

  /** One differing byte rules out an occurrence. */
  lemma Mismatch(s: string, pat: string, i: nat, j: nat)
    requires j < |pat| && (i + j < |s| ==> s[i + j] != pat[j])
    ensures !OccursAt(s, pat, i)
  {
    if i + |pat| <= |s| {
      assert s[i..i + |pat|][j] == s[i + j];
    }
  }

  /** strstr finds both keys of a login body where the browser put them. */
  lemma LoginKeys(u: string, p: string)
    requires PlainValue(u) && PlainValue(p)
    ensures FindSub(LoginBody(u, p), "username=") == Some(0)
    ensures FindSub(LoginBody(u, p), "password=") == Some(|u| + 10)
  {
    var s := LoginBody(u, p);
    var n := |u|;
    assert s[..9] == "username=";
    FindSubAt(s, "username=", 0);
    assert s[n + 10..n + 19] == "password=";
    forall i: nat | i < n + 10
      ensures !OccursAt(s, "password=", i)
    {
      if i == 0 {
        Mismatch(s, "password=", 0, 0);
      } else if i <= n {
        assert s[i + 8] == u[i - 1];
        Mismatch(s, "password=", i, 8);
      } else if i == n + 1 {
        assert s[i + 8] == '&';
        Mismatch(s, "password=", i, 8);
      } else {
        assert s[i + 8] == "password"[i - n - 2];
        Mismatch(s, "password=", i, 8);
      }
    }
    FindSubAt(s, "password=", n + 10);
  }

  /** Where each piece of a login body lies in the buffer. */
  lemma LoginLayout(u: string, p: string)
    requires PlainValue(u) && PlainValue(p)
    ensures '\0' !in LoginBody(u, p)
    ensures var b := LoginBody(u, p) + ['\0'];
      Terminated(b) && At(b, 0, "username" + "=") && At(b, 9, u + "&")
      && At(b, |u| + 10, "password" + "=") && At(b, |u| + 19, p + ['\0'])
  {
    var b := LoginBody(u, p) + ['\0'];
    var a := |u| + 9;
    assert '\0' !in "username=" + u + "&password=" + p;
    assert b == "username=" + u + "&password=" + p + ['\0'];
    assert b[0..9] == "username" + "=";
    assert b[9..a + 1] == u + "&";
    assert b[a + 1..a + 10] == "password" + "=";
    assert b[a + 10..] == p + ['\0'];
  }

  /** Login reads the two values at the token indexes the two field extractions return. */
  lemma LoginOf(body: string, ku: nat, kp: nat, buf1: string, buf2: string, tu: nat, tp: nat)
    requires '\0' !in body
    requires FindSub(body, "username=") == Some(ku) && FindSub(body, "password=") == Some(kp)
    requires ku < |body| + 1
    requires Field(body + ['\0'], ku).buf == buf1
    requires Field(body + ['\0'], ku).token == Some(tu)
    requires kp < |buf1|
    requires Field(buf1, kp).buf == buf2
    requires Field(buf1, kp).token == Some(tp)
    requires tu < |buf2| && tp < |buf2|
    ensures Login(body) == Fields(Some(StrAt(buf2, tu)), Some(StrAt(buf2, tp)), None)
  {
  }

  /** A login form as a browser sends it yields exactly the user name and password typed in. */
  lemma LoginCanonical(u: string, p: string)
    requires PlainValue(u) && PlainValue(p)
    ensures Login(LoginBody(u, p)) == Fields(Some(u), Some(p), None)
  {
    var n := |u|;
    var body := LoginBody(u, p);
    var b := body + ['\0'];
    KeysPlain();
    LoginKeys(u, p);
    LoginLayout(u, p);
    var c1 := b[8 := '\0'];
    var buf1 := c1[9 + n := '\0'];
    var buf2 := buf1[n + 18 := '\0'];
    AtUpdate2(b, n + 10, "password=", 8, 9 + n);
    AtUpdate2(b, n + 19, p + ['\0'], 8, 9 + n);
    FieldMid(b, 0, "username", u, 8, 9, c1);
    AtUpdate(buf1, 9, u + ['\0'], n + 18, '\0');
    FieldLast(buf1, n + 10, "password", p, n + 18, n + 19, buf2);
    StrAtIs(buf2, 9, u);
    StrAtIs(buf2, n + 19, p);
    LoginOf(body, 0, n + 10, buf1, buf2, 9, n + 19);
  }

  /** The body of the registration form a browser posts to /user.html: the '@' of the
      e-mail suffix arrives percent-encoded as "%40". */
  function RegisterBody(u: string, p: string, e: string, x: string): string {
    "username=" + u + "&password=" + p + "&emailname=" + e + "&email_suffix=%40" + x
  }

  /** The only '=' signs of a registration body end its four keys. */
  lemma RegisterEquals(u: string, p: string, e: string, x: string, q: nat)
    requires PlainValue(u) && PlainValue(p) && PlainValue(e) && PlainValue(x)
    requires q < |RegisterBody(u, p, e, x)|
    requires q != 8 && q != |u| + 18 && q != |u| + |p| + 29 && q != |u| + |p| + |e| + 43
    ensures RegisterBody(u, p, e, x)[q] != '='
  {
    var s := RegisterBody(u, p, e, x);
    var a := |u| + 9;
    var b := a + 10 + |p|;
    var c := b + 11 + |e|;
    assert s == "username=" + u + "&password=" + p + "&emailname=" + e + "&email_suffix=%40" + x;
    if q < 9 {
      assert s[q] == "username="[q];
    } else if q < a {
      assert s[q] == u[q - 9];
    } else if q < a + 10 {
      assert s[q] == "&password="[q - a];
    } else if q < b {
      assert s[q] == p[q - a - 10];
    } else if q < b + 11 {
      assert s[q] == "&emailname="[q - b];
    } else if q < c {
      assert s[q] == e[q - b - 11];
    } else if q < c + 17 {
      assert s[q] == "&email_suffix=%40"[q - c];
    } else {
      assert s[q] == x[q - c - 17];
    }
  }

  /** Where the keys and the separators of a registration body lie. */
  lemma RegisterMarks(u: string, p: string, e: string, x: string)
    ensures var s := RegisterBody(u, p, e, x); var a := |u| + 9; var b := a + 10 + |p|; var c := b + 11 + |e|;
      OccursAt(s, "username=", 0) && OccursAt(s, "password=", a + 1)
      && OccursAt(s, "emailname=", b + 1) && OccursAt(s, "email_suffix=", c + 1)
      && s[a] == '&' && s[b] == '&' && s[c] == '&'
  {
    FrontMarks(u, p, e, x);
    BackMarks(u, p, e, x);
  }

  lemma FrontMarks(u: string, p: string, e: string, x: string)
    ensures var s := RegisterBody(u, p, e, x); var a := |u| + 9;
      OccursAt(s, "username=", 0) && OccursAt(s, "password=", a + 1) && s[a] == '&'
  {
    var s := RegisterBody(u, p, e, x);
    var a := |u| + 9;
    var s1 := "username=" + u + "&password=";
    assert s[..a + 10] == s1;
    assert s[..9] == s1[..9];
    assert s[a..a + 10] == s1[a..a + 10];
  }

  lemma BackMarks(u: string, p: string, e: string, x: string)
    ensures var s := RegisterBody(u, p, e, x); var b := |u| + |p| + 19; var c := b + 11 + |e|;
      OccursAt(s, "emailname=", b + 1) && OccursAt(s, "email_suffix=", c + 1) && s[b] == '&' && s[c] == '&'
  {
    var s := RegisterBody(u, p, e, x);
    var b := |u| + |p| + 19;
    var c := b + 11 + |e|;
    var s2 := "username=" + u + "&password=" + p + "&emailname=";
    var s3 := s2 + e + "&email_suffix=%40";
    assert s == s3 + x;
    assert s[b..b + 11] == s2[b..b + 11];
    assert s[c..c + 14] == s3[c..c + 14];
  }

  /** strstr finds each key of a registration body where the browser put it. */
  lemma RegisterKeys(u: string, p: string, e: string, x: string, k2: nat, k3: nat, k4: nat)
    requires PlainValue(u) && PlainValue(p) && PlainValue(e) && PlainValue(x)
    requires k2 == |u| + 10 && k3 == |u| + |p| + 20 && k4 == |u| + |p| + |e| + 31
    ensures FindSub(RegisterBody(u, p, e, x), "username=") == Some(0)
    ensures FindSub(RegisterBody(u, p, e, x), "password=") == Some(k2)
    ensures FindSub(RegisterBody(u, p, e, x), "emailname=") == Some(k3)
    ensures FindSub(RegisterBody(u, p, e, x), "email_suffix=") == Some(k4)
  {
    FrontMarks(u, p, e, x);
    FindSubAt(RegisterBody(u, p, e, x), "username=", 0);
    PasswordKey(u, p, e, x);
    EmailKey(u, p, e, x);
    SuffixKey(u, p, e, x);
  }

  lemma PasswordKey(u: string, p: string, e: string, x: string)
    requires PlainValue(u) && PlainValue(p) && PlainValue(e) && PlainValue(x)
    ensures FindSub(RegisterBody(u, p, e, x), "password=") == Some(|u| + 10)
  {
    var s := RegisterBody(u, p, e, x);
    RegisterMarks(u, p, e, x);
    forall i: nat | i < |u| + 10
      ensures !OccursAt(s, "password=", i)
    {
      if i == 0 {
        Mismatch(s, "password=", 0, 0);
      } else {
        if i + 8 < |s| { RegisterEquals(u, p, e, x, i + 8); }
        Mismatch(s, "password=", i, 8);
      }
    }
    FindSubAt(s, "password=", |u| + 10);
  }

  lemma EmailKey(u: string, p: string, e: string, x: string)
    requires PlainValue(u) && PlainValue(p) && PlainValue(e) && PlainValue(x)
    ensures FindSub(RegisterBody(u, p, e, x), "emailname=") == Some(|u| + |p| + 20)
  {
    var s := RegisterBody(u, p, e, x);
    RegisterMarks(u, p, e, x);
    forall i: nat | i < |u| + 19 + |p| + 1
      ensures !OccursAt(s, "emailname=", i)
    {
      if i == |u| + 9 {
        Mismatch(s, "emailname=", i, 0);
      } else {
        if i + 9 < |s| { RegisterEquals(u, p, e, x, i + 9); }
        Mismatch(s, "emailname=", i, 9);
      }
    }
    FindSubAt(s, "emailname=", |u| + 19 + |p| + 1);
  }

  lemma SuffixKey(u: string, p: string, e: string, x: string)
    requires PlainValue(u) && PlainValue(p) && PlainValue(e) && PlainValue(x)
    ensures FindSub(RegisterBody(u, p, e, x), "email_suffix=") == Some(|u| + |p| + |e| + 31)
  {
    var s := RegisterBody(u, p, e, x);
    var c := |u| + |p| + |e| + 30;
    RegisterMarks(u, p, e, x);
    forall i: nat | i < c + 1
      ensures !OccursAt(s, "email_suffix=", i)
    {
      NoSuffixBefore(u, p, e, x, i);
    }
    FindSubAt(s, "email_suffix=", c + 1);
  }

  /** "email_suffix=" does not start before its place in a registration body. */
  lemma NoSuffixBefore(u: string, p: string, e: string, x: string, i: nat)
    requires PlainValue(u) && PlainValue(p) && PlainValue(e) && PlainValue(x)
    requires i < |u| + |p| + |e| + 31
    ensures !OccursAt(RegisterBody(u, p, e, x), "email_suffix=", i)
  {
    var s := RegisterBody(u, p, e, x);
    var a := |u| + 9;
    var b := a + 10 + |p|;
    RegisterMarks(u, p, e, x);
    if i + 3 == a {
      Mismatch(s, "email_suffix=", i, 3);
    } else if i + 2 == b {
      Mismatch(s, "email_suffix=", i, 2);
    } else {
      if i + 12 < |s| { RegisterEquals(u, p, e, x, i + 12); }
      Mismatch(s, "email_suffix=", i, 12);
    }
  }

  /** A string is where its two halves are. */
  lemma AtSplit(b: string, i: nat, w1: string, w2: string)
    requires At(b, i, w1 + w2)
    ensures At(b, i, w1) && At(b, i + |w1|, w2)
  {
    assert b[i..i + |w1|] == (w1 + w2)[..|w1|];
    assert b[i + |w1|..i + |w1| + |w2|] == (w1 + w2)[|w1|..];
  }

  lemma AtJoin(b: string, i: nat, w1: string, w2: string)
    requires At(b, i, w1) && At(b, i + |w1|, w2)
    ensures At(b, i, w1 + w2)
  {
    assert b[i..i + |w1| + |w2|] == b[i..i + |w1|] + b[i + |w1|..i + |w1| + |w2|];
  }

  /** What a copy writes lies where it was written. */
  lemma PutHere(b: string, i: nat, s: string)
    requires i <= |b|
    ensures At(Put(b, i, s), i, s)
  {
  }

  /** A copy leaves what lies outside the bytes it writes. */
  lemma PutFrame(b: string, i: nat, s: string, j: nat, w: string)
    requires i <= |b| && At(b, j, w) && (j + |w| <= i || i + |s| <= j)
    ensures At(Put(b, i, s), j, w)
  {
    var r := Put(b, i, s);
    if j + |w| <= i {
      assert r[..i] == b[..i];
      assert r[j..j + |w|] == r[..i][j..j + |w|];
      assert b[j..j + |w|] == b[..i][j..j + |w|];
    } else if |w| > 0 {
      var m := i + |s|;
      assert m < |b| && r[m..] == b[m..];
      SliceOfSuffix(r, m, j - m, j, |w|);
      SliceOfSuffix(b, m, j - m, j, |w|);
    }
  }

  lemma SliceOfSuffix(b: string, m: nat, d: nat, j: nat, len: nat)
    requires j == m + d && j + len <= |b|
    ensures b[m..][d..d + len] == b[j..j + len]
  {
  }

  lemma Assoc(a: string, b: string, c: string)
    ensures a + (b + c) == a + b + c
  {
  }

  /** strcpy from a string known to lie at `src`. */
  lemma StrcpyAt(b: string, dst: nat, src: nat, w: string) returns (r: string)
    requires dst <= |b| && At(b, src, w + ['\0']) && '\0' !in w
    ensures Strcpy(b, dst, src) == r && r == Put(b, dst, w + ['\0'])
  {
    StrAtIs(b, src, w);
    r := Put(b, dst, w + ['\0']);
  }

  /** strcat onto a string known to lie at `dst`. */
  lemma StrcatAt(b: string, dst: nat, w: string, s: string) returns (r: string)
    requires At(b, dst, w + ['\0']) && '\0' !in w
    ensures Strcat(b, dst, s) == r && r == Put(b, dst + |w|, s + ['\0'])
  {
    StrAtIs(b, dst, w);
    r := Put(b, dst + |w|, s + ['\0']);
  }

  /** Assemble's result, given what each of its steps leaves. */
  lemma AssembleOf(b: string, em: nat, su: nat, user: Option<nat>, pass: Option<nat>,
                   b1: string, b2: string, b3: string, x: string, n: nat)
    requires Terminated(b) && em < |b| && su < |b|
    requires user.Some? ==> user.value < |b|
    requires pass.Some? ==> pass.value < |b|
    requires su + 3 < |b| && Strcpy(b, su, su + 3) == b1
    requires em <= |b1| && Strcat(b1, em, "@") == b2
    requires su <= |b2| && StrAt(b2, su) == x
    requires em <= |b2| && |StrAt(b2, em)| == n && em + n <= su
    requires Strcat(b2, em, x) == b3 && |b3| <= BUF_SIZE
    ensures Assemble(b, em, su, user, pass) == Fields(Value(b3, user), Value(b3, pass), Some(StrAt(b3, em)))
  {
  }

  /** The copy of the suffix token over its "%40". */
  lemma CopyPut(b: string, su: nat, x: string, em: nat, e: string, b1: string)
    requires PlainValue(x) && '\0' !in e
    requires At(b, su + 3, x + ['\0']) && At(b, em, e + ['\0']) && em + |e| + 1 <= su
    requires b1 == Put(b, su, x + ['\0'])
    ensures |b1| == |b| && b1[..em] == b[..em]
    ensures At(b1, em, e + ['\0']) && At(b1, su, x + ['\0'])
  {
    PutPrefix(b, su, x + ['\0'], em);
    PutFrame(b, su, x + ['\0'], em, e + ['\0']);
    PutHere(b, su, x + ['\0']);
  }

  /** Writing `x` over the NUL that ends `w` leaves `w + x` there. */
  lemma PutAppend(b: string, i: nat, w: string, x: string)
    requires At(b, i, w + ['\0'])
    ensures At(Put(b, i + |w|, x + ['\0']), i, w + x + ['\0'])
  {
    var n := i + |w|;
    AtSplit(b, i, w, ['\0']);
    PutFrame(b, n, x + ['\0'], i, w);
    PutHere(b, n, x + ['\0']);
    AtJoin(Put(b, n, x + ['\0']), i, w, x + ['\0']);
    Assoc(w, x, ['\0']);
  }

  /** A write at or past `m` keeps the first `m` characters. */
  lemma PutPrefix(b: string, i: nat, s: string, m: nat)
    requires m <= i <= |b|
    ensures |Put(b, i, s)| >= m && Put(b, i, s)[..m] == b[..m]
  {
    var r := Put(b, i, s);
    assert r[..m] == r[..i][..m];
  }

  /** The C string at `k` is still `w` in a buffer that shares the prefix it lies in. */
  lemma PrefixStr(b: string, c: string, m: nat, k: nat, w: string)
    requires m <= |b| && m <= |c| && c[..m] == b[..m]
    requires At(b, k, w + ['\0']) && k + |w| + 1 <= m && '\0' !in w
    ensures StrAt(c, k) == w
  {
    assert c[k..k + |w| + 1] == c[..m][k..k + |w| + 1];
    assert b[k..k + |w| + 1] == b[..m][k..k + |w| + 1];
    StrAtIs(c, k, w);
  }

  /** The '@' written over the NUL that ends the name token. */
  lemma AtPut(b1: string, em: nat, e: string, su: nat, x: string, b2: string)
    requires '\0' !in e && PlainValue(x)
    requires At(b1, em, e + ['\0']) && At(b1, su, x + ['\0']) && em + |e| + 2 <= su
    requires b2 == Put(b1, em + |e|, "@" + ['\0'])
    ensures |b2| == |b1| && b2[..em] == b1[..em]
    ensures At(b2, em, e + "@" + ['\0']) && At(b2, su, x + ['\0'])
  {
    PutPrefix(b1, em + |e|, "@" + ['\0'], em);
    PutFrame(b1, em + |e|, "@" + ['\0'], su, x + ['\0']);
    PutAppend(b1, em, e, "@");
  }

  /** The suffix written over the NUL that ends the name and its '@'. */
  lemma SuffixPut(b2: string, em: nat, w: string, x: string, b3: string)
    requires '\0' !in w && PlainValue(x)
    requires At(b2, em, w + ['\0']) && em + |w| + |x| + 1 < |b2|
    requires b3 == Put(b2, em + |w|, x + ['\0'])
    ensures |b3| == |b2| && b3[..em] == b2[..em]
    ensures At(b3, em, w + x + ['\0'])
  {
    PutPrefix(b2, em + |w|, x + ['\0'], em);
    PutAppend(b2, em, w, x);
  }

  /** strcpy(em_su, em_su + 3) on the suffix token "%40" + x. */
  lemma AssembleCopy(b: string, su: nat, x: string, em: nat, e: string) returns (b1: string)
    requires PlainValue(x) && '\0' !in e
    requires At(b, su + 3, x + ['\0']) && At(b, em, e + ['\0']) && em + |e| + 1 <= su
    ensures Strcpy(b, su, su + 3) == b1 && |b1| == |b| && b1[..em] == b[..em]
    ensures At(b1, em, e + ['\0']) && At(b1, su, x + ['\0'])
  {
    b1 := StrcpyAt(b, su, su + 3, x);
    CopyPut(b, su, x, em, e, b1);
  }

  /** strcat(em, "@") on the name token e. */
  lemma AssembleAt(b1: string, em: nat, e: string, su: nat, x: string) returns (b2: string)
    requires '\0' !in e && PlainValue(x)
    requires At(b1, em, e + ['\0']) && At(b1, su, x + ['\0']) && em + |e| + 2 <= su
    ensures Strcat(b1, em, "@") == b2 && |b2| == |b1| && b2[..em] == b1[..em]
    ensures At(b2, em, e + "@" + ['\0']) && At(b2, su, x + ['\0'])
  {
    b2 := StrcatAt(b1, em, e, "@");
    AtPut(b1, em, e, su, x, b2);
  }

  /** strcat(em, em_su) once the name reads w = e + "@" and the suffix x. */
  lemma AssembleSuffix(b2: string, em: nat, w: string, x: string) returns (b3: string)
    requires '\0' !in w && PlainValue(x)
    requires At(b2, em, w + ['\0']) && em + |w| + |x| + 1 < |b2|
    ensures Strcat(b2, em, x) == b3 && |b3| == |b2| && b3[..em] == b2[..em]
    ensures At(b3, em, w + x + ['\0'])
  {
    b3 := StrcatAt(b2, em, w, x);
    SuffixPut(b2, em, w, x, b3);
  }

  /** On the buffer the four field extractions leave, the e-mail assembly yields the name,
      an '@' and the suffix without its "%40", and leaves everything before the name alone. */
  lemma AssembleCanonical(b: string, em: nat, su: nat, e: string, x: string, user: Option<nat>, pass: Option<nat>)
    returns (b3: string)
    requires Terminated(b) && PlainValue(e) && PlainValue(x)
    requires At(b, em, e + ['\0']) && em + |e| + 2 <= su
    requires At(b, su, "%40") && At(b, su + 3, x + ['\0'])
    requires user.Some? ==> user.value < |b|
    requires pass.Some? ==> pass.value < |b|
    requires |b| <= BUF_SIZE
    ensures |b3| == |b| && b3[..em] == b[..em]
    ensures Assemble(b, em, su, user, pass) == Fields(Value(b3, user), Value(b3, pass), Some(e + "@" + x))
  {
    var b1 := AssembleCopy(b, su, x, em, e);
    var b2 := AssembleAt(b1, em, e, su, x);
    b3 := AssembleSuffix(b2, em, e + "@", x);
    StrAtIs(b3, em, e + "@" + x);
    StrAtIs(b2, su, x);
    StrAtIs(b2, em, e + "@");
    AssembleOf(b, em, su, user, pass, b1, b2, b3, x, |e| + 1);
  }

  /** A field "key=v&" followed by `rest`, found at `k`: the token is `v`, NUL-terminated,
      and what lies before the key and after the '&' is left alone. */
  lemma FieldNext(b: string, k: nat, key: string, v: string, rest: string, j: nat, n: nat) returns (r: string)
    requires Terminated(b) && PlainValue(key) && PlainValue(v)
    requires At(b, k, (key + "=") + (v + "&") + rest) && j == k + |key| + 1 && n == j + |v| + 1
    ensures Field(b, k).token == Some(j) && Field(b, k).buf == r
    ensures |r| == |b| && Terminated(r) && r[..k] == b[..k]
    ensures At(r, j, v + ['\0']) && At(r, n, rest)
  {
    var cut := k + |key|;
    var c := b[cut := '\0'];
    AtSplit(b, k, (key + "=") + (v + "&"), rest);
    AtSplit(b, k, key + "=", v + "&");
    r := c[j + |v| := '\0'];
    AtUpdate2(b, n, rest, cut, j + |v|);
    assert r[..k] == b[..k];
    FieldMid(b, k, key, v, cut, j, c);
  }

  /** The last field "key=v", found at `k`: the token is `v` and what lies before the key is left alone. */
  lemma FieldFinal(b: string, k: nat, key: string, v: string, j: nat) returns (r: string)
    requires Terminated(b) && PlainValue(key) && PlainValue(v)
    requires At(b, k, (key + "=") + (v + ['\0'])) && j == k + |key| + 1
    ensures Field(b, k).token == Some(j) && Field(b, k).buf == r
    ensures |r| == |b| && Terminated(r) && r[..k] == b[..k]
    ensures At(r, j, v + ['\0'])
  {
    var cut := k + |key|;
    AtSplit(b, k, key + "=", v + ['\0']);
    r := b[cut := '\0'];
    assert r[..k] == b[..k];
    FieldLast(b, k, key, v, cut, j, r);
  }

  /** A prefix two buffers share carries what lies in it. */
  lemma AtPrefix(b: string, c: string, m: nat, j: nat, w: string)
    requires m <= |b| && m <= |c| && c[..m] == b[..m] && At(b, j, w) && j + |w| <= m
    ensures At(c, j, w)
  {
    assert c[j..j + |w|] == c[..m][j..j + |w|];
    assert b[j..j + |w|] == b[..m][j..j + |w|];
  }

  /** The suffix token keeps its percent-encoded '@', so it is plain too. */
  lemma SuffixPlain(x: string)
    requires PlainValue(x)
    ensures PlainValue("%40" + x)
  {
    assert "%40" + x == ['%', '4', '0'] + x;
  }

  /** The suffix token splits into its "%40" and the rest. */
  lemma SuffixAt(b: string, i: nat, x: string)
    requires At(b, i, ("%40" + x) + ['\0'])
    ensures At(b, i, "%40") && At(b, i + 3, x + ['\0'])
  {
    Assoc("%40", x, ['\0']);
    AtSplit(b, i, "%40", x + ['\0']);
  }

  /** A registration body, NUL-terminated, as four fields one after the other. */
  lemma RegisterShape(u: string, p: string, e: string, x: string)
    requires PlainValue(u) && PlainValue(p) && PlainValue(e) && PlainValue(x)
    ensures '\0' !in RegisterBody(u, p, e, x)
    ensures var t := RegisterBody(u, p, e, x) + ['\0'];
      var r3 := ("email_suffix" + "=") + (("%40" + x) + ['\0']);
      var r2 := ("emailname" + "=") + (e + "&") + r3;
      var r1 := ("password" + "=") + (p + "&") + r2;
      Terminated(t) && At(t, 0, ("username" + "=") + (u + "&") + r1)
  {
    var t := RegisterBody(u, p, e, x) + ['\0'];
    assert '\0' !in "username=" + u + "&password=" + p + "&emailname=" + e + "&email_suffix=%40" + x;
    RegisterText(u, p, e, x);
    assert t[0..|t|] == t;
  }

  lemma RegisterText(u: string, p: string, e: string, x: string)
    ensures var r3 := ("email_suffix" + "=") + (("%40" + x) + ['\0']);
      var r2 := ("emailname" + "=") + (e + "&") + r3;
      var r1 := ("password" + "=") + (p + "&") + r2;
      RegisterBody(u, p, e, x) + ['\0'] == ("username" + "=") + (u + "&") + r1
  {
    Regroup("username=", u, "&password=", p, "&emailname=", e, "&email_suffix=%40", x,
            "username" + "=", "password" + "=", "emailname" + "=", "email_suffix" + "=");
  }

  /** Four "key=value" fields joined by '&', regrouped field by field. */
  lemma Regroup(a1: string, u: string, a2: string, p: string, a3: string, e: string, a4: string, x: string,
                k1: string, k2: string, k3: string, k4: string)
    requires a1 == k1 && a2 == "&" + k2 && a3 == "&" + k3 && a4 == "&" + k4 + "%40"
    ensures a1 + u + a2 + p + a3 + e + a4 + x + ['\0']
      == k1 + (u + "&") + (k2 + (p + "&") + (k3 + (e + "&") + (k4 + (("%40" + x) + ['\0']))))
  {
  }

  /** The extractions' result, given the four buffers and token indexes they produce. */
  lemma RegisterFieldsOf(b: string, ku: nat, kp: nat, ke: nat, kx: nat,
                         b1: string, b2: string, b3: string, b4: string, tu: nat, tp: nat, te: nat, tx: nat)
    requires Terminated(b) && ku < |b| && kp < |b| && ke < |b| && kx < |b|
    requires Field(b, ku).buf == b1 && Field(b, ku).token == Some(tu)
    requires Field(b1, kp).buf == b2 && Field(b1, kp).token == Some(tp)
    requires Field(b2, ke).buf == b3 && Field(b2, ke).token == Some(te)
    requires Field(b3, kx).buf == b4 && Field(b3, kx).token == Some(tx)
    requires Terminated(b4) && tu < |b4| && tp < |b4| && te < |b4| && tx < |b4|
    ensures RegisterFields(b, ku, kp, ke, kx) == Assemble(b4, te, tx, Some(tu), Some(tp))
  {
  }

  /** Two buffers that share a prefix share every shorter one. */
  lemma PrefixCut(a: string, b: string, m: nat, n: nat)
    requires m <= n <= |a| && n <= |b| && a[..n] == b[..n]
    ensures a[..m] == b[..m]
  {
    assert a[..m] == a[..n][..m];
    assert b[..m] == b[..n][..m];
  }

  /** Once strstr has found the four keys, Register is the four extractions. */
  lemma RegisterFound(body: string, kp: nat, ke: nat, kx: nat)
    requires '\0' !in body
    requires FindSub(body, "username=") == Some(0) && FindSub(body, "password=") == Some(kp)
    requires FindSub(body, "emailname=") == Some(ke) && FindSub(body, "email_suffix=") == Some(kx)
    ensures kp < |body| + 1 && ke < |body| + 1 && kx < |body| + 1
    ensures Register(body) == RegisterFields(body + ['\0'], 0, kp, ke, kx)
  {
  }

  /** The four field extractions on a NUL-terminated registration body as a browser sends it:
      each token is its value, NUL-terminated, and the suffix keeps its "%40". */
  lemma RegisterExtract(t: string, u: string, p: string, e: string, x: string, k2: nat, k3: nat, k4: nat, em: nat, su: nat)
    returns (b4: string)
    requires Terminated(t)
    requires PlainValue(u) && PlainValue(p) && PlainValue(e) && PlainValue(x)
    requires At(t, 0, ("username" + "=") + (u + "&") + (("password" + "=") + (p + "&") + (("emailname" + "=") + (e + "&")
                      + (("email_suffix" + "=") + (("%40" + x) + ['\0'])))))
    requires k2 == |u| + 10 && k3 == k2 + |p| + 10 && k4 == k3 + |e| + 11 && em == k3 + 10 && su == k4 + 13
    ensures |b4| == |t| && Terminated(b4) && su < |b4|
    ensures RegisterFields(t, 0, k2, k3, k4) == Assemble(b4, em, su, Some(9), Some(k2 + 9))
    ensures At(b4, 9, u + ['\0']) && At(b4, k2 + 9, p + ['\0']) && At(b4, em, e + ['\0'])
    ensures At(b4, su, "%40") && At(b4, su + 3, x + ['\0'])
  {
    var r3 := ("email_suffix" + "=") + (("%40" + x) + ['\0']);
    var r2 := ("emailname" + "=") + (e + "&") + r3;
    var r1 := ("password" + "=") + (p + "&") + r2;
    KeysPlain();
    SuffixPlain(x);
    var b1 := FieldNext(t, 0, "username", u, r1, 9, k2);
    var b2 := FieldNext(b1, k2, "password", p, r2, k2 + 9, k3);
    var b3 := FieldNext(b2, k3, "emailname", e, r3, em, k4);
    b4 := FieldFinal(b3, k4, "email_suffix", "%40" + x, su);
    assert At(b4, em, e + ['\0']) by {
      AtPrefix(b3, b4, k4, em, e + ['\0']);
    }
    assert At(b4, k2 + 9, p + ['\0']) by {
      PrefixCut(b4, b3, k3, k4);
      AtPrefix(b2, b4, k3, k2 + 9, p + ['\0']);
    }
    assert At(b4, 9, u + ['\0']) by {
      PrefixCut(b4, b3, k2, k4);
      PrefixCut(b3, b2, k2, k3);
      AtPrefix(b1, b4, k2, 9, u + ['\0']);
    }
    SuffixAt(b4, su, x);
    RegisterFieldsOf(t, 0, k2, k3, k4, b1, b2, b3, b4, 9, k2 + 9, em, su);
  }

  /** The four extractions and the e-mail assembly on a NUL-terminated registration body. */
  lemma RegisterFieldsCanonical(t: string, u: string, p: string, e: string, x: string, k2: nat, k3: nat, k4: nat)
    requires Terminated(t) && |t| <= BUF_SIZE
    requires PlainValue(u) && PlainValue(p) && PlainValue(e) && PlainValue(x)
    requires At(t, 0, ("username" + "=") + (u + "&") + (("password" + "=") + (p + "&") + (("emailname" + "=") + (e + "&")
                      + (("email_suffix" + "=") + (("%40" + x) + ['\0'])))))
    requires k2 == |u| + 10 && k3 == |u| + |p| + 20 && k4 == |u| + |p| + |e| + 31
    ensures k4 < |t|
    ensures RegisterFields(t, 0, k2, k3, k4) == Fields(Some(u), Some(p), Some(e + "@" + x))
  {
    var em := k3 + 10;
    var su := k4 + 13;
    var b4 := RegisterExtract(t, u, p, e, x, k2, k3, k4, em, su);
    var b5 := AssembleCanonical(b4, em, su, e, x, Some(9), Some(k2 + 9));
    PrefixStr(b4, b5, em, k2 + 9, p);
    PrefixStr(b4, b5, em, 9, u);
  }

  /** A registration form as a browser sends it yields the user name, the password and the
      e-mail address put back together with its '@'. */
  lemma RegisterCanonical(u: string, p: string, e: string, x: string)
    requires PlainValue(u) && PlainValue(p) && PlainValue(e) && PlainValue(x)
    requires |RegisterBody(u, p, e, x)| < BUF_SIZE
    ensures Register(RegisterBody(u, p, e, x)) == Fields(Some(u), Some(p), Some(e + "@" + x))
  {
    var body := RegisterBody(u, p, e, x);
    var k2, k3, k4 := |u| + 10, |u| + |p| + 20, |u| + |p| + |e| + 31;
    RegisterShape(u, p, e, x);
    RegisterKeys(u, p, e, x, k2, k3, k4);
    RegisterFound(body, k2, k3, k4);
    RegisterFieldsCanonical(body + ['\0'], u, p, e, x, k2, k3, k4);
  }
}
