/**
 The request line of TinyWebServer/http/http_conn.cpp: parse_request_line() splits a line of
 the read buffer by writing NULs into it, and may append a page name in place.
 */
module HttpRequestLine {
  import opened HttpLines
  import opened Options

  datatype Method = GET | POST

  /** `Undefined` stands for a call with a null pointer, which the C library leaves undefined. */
  datatype Code = BadRequest | NoRequest | Undefined

  // ---------- Strings in a buffer ----------

  /** The C string that starts at position `i`. */
  function CStr(b: seq<char>, i: nat): seq<char>
    decreases |b| - i
  {
    if i >= |b| || b[i] == NUL then [] else [b[i]] + CStr(b, i + 1)
  }

  predicate IsBlank(c: char) {
    c == ' ' || c == '\t'
  }

  /** The position of the first blank, or the length: strpbrk(s, " \t"). */
  function FirstBlank(s: seq<char>): (p: nat)
    ensures p <= |s| && (p < |s| ==> IsBlank(s[p])) && forall i :: 0 <= i < p ==> !IsBlank(s[i])
  {
    if s == [] || IsBlank(s[0]) then 0 else 1 + FirstBlank(s[1..])
  }

  /** The number of leading blanks: strspn(s, " \t"). */
  function LeadingBlanks(s: seq<char>): (p: nat)
    ensures p <= |s| && (p < |s| ==> !IsBlank(s[p])) && forall i :: 0 <= i < p ==> IsBlank(s[i])
  {
    if s == [] || !IsBlank(s[0]) then 0 else 1 + LeadingBlanks(s[1..])
  }

  function Lower(c: char): char {
    if 'A' <= c <= 'Z' then ((c as int) + 32) as char else c
  }

  /** strcasecmp(s, t) == 0. */
  predicate SameFold(s: seq<char>, t: seq<char>) {
    |s| == |t| && forall i :: 0 <= i < |s| ==> Lower(s[i]) == Lower(t[i])
  }

  /** strncasecmp(s, t, |t|) == 0. */
  predicate StartsFold(s: seq<char>, t: seq<char>) {
    |t| <= |s| && SameFold(s[..|t|], t)
  }

  /** The position of the first slash, or the length: strchr(s, '/'). */
  function FirstSlash(s: seq<char>): (p: nat)
    ensures p <= |s| && (p < |s| ==> s[p] == '/') && forall i :: 0 <= i < p ==> s[i] != '/'
  {
    if s == [] || s[0] == '/' then 0 else 1 + FirstSlash(s[1..])
  }

  // ---------- What the line means ----------

  datatype Request = Request(verb: Method, url: seq<char>)

  datatype Verdict = Verdict(code: Code, request: Option<Request>)

  const VERSION: seq<char> := "HTTP/1.1"
  const HTTP_PREFIX: seq<char> := "http::/"
  const HTTPS_PREFIX: seq<char> := "https::/"

  /** How many characters go with a prefix: up to the next slash, or all when there is none. */
  function Skipped(u: seq<char>, prefix: seq<char>): (d: nat)
    ensures d <= |u| && (d == 0 || d == |u| || u[d] == '/')
  {
    if StartsFold(u, prefix) then |prefix| + FirstSlash(u[|prefix|..]) else 0
  }

  /** strchr() found no slash after the prefix. */
  predicate NoSlashAfter(u: seq<char>, prefix: seq<char>) {
    StartsFold(u, prefix) && Skipped(u, prefix) == |u|
  }

  /** The resource after the two prefix tests; None where the code follows a null pointer. */
  ghost function Resource(u: seq<char>): Option<seq<char>> {
    if NoSlashAfter(u, HTTP_PREFIX) then None else
    var w := u[Skipped(u, HTTP_PREFIX)..];
    Some(w[Skipped(w, HTTPS_PREFIX)..])
  }

  ghost function Page(u: seq<char>): seq<char> {
    if |u| == 1 then u + "judge.html" else u
  }

  function MethodOf(m: seq<char>): Option<Method> {
    if SameFold(m, "GET") then Some(GET) else if SameFold(m, "POSE") then Some(POST) else None
  }

  /** What a line means once its resource and its version are known. */
  ghost function Judge(verb: Method, resource: Option<seq<char>>): Verdict {
    match resource
    case None => Verdict(Undefined, None)
    case Some(w) =>
      if w == [] || w[0] != '/' then Verdict(BadRequest, None)
      else Verdict(NoRequest, Some(Request(verb, Page(w))))
  }

  /** What follows the blank at position `p`, without leading blanks. */
  ghost function NextToken(l: seq<char>, p: nat): seq<char>
    requires p < |l|
  {
    l[p + 1..][LeadingBlanks(l[p + 1..])..]
  }

  /** The verdict on the part of the line that starts at the resource. */
  ghost function TargetVerdict(verb: Method, us: seq<char>): Verdict {
    var q := FirstBlank(us);
    if q == |us| || !SameFold(NextToken(us, q), VERSION) then Verdict(BadRequest, None)
    else Judge(verb, Resource(us[..q]))
  }

  /** The verdict on a request line, as a function of its characters. */
  ghost function LineVerdict(l: seq<char>): Verdict {
    var p := FirstBlank(l);
    if p == |l| || MethodOf(l[..p]).None? then Verdict(BadRequest, None)
    else TargetVerdict(MethodOf(l[..p]).value, NextToken(l, p))
  }

  // ---------- The lines that are accepted ----------

  ghost predicate NoBlank(s: seq<char>) {
    forall i :: 0 <= i < |s| ==> !IsBlank(s[i])
  }

  ghost predicate Blanks(s: seq<char>) {
    s != [] && forall i :: 0 <= i < |s| ==> IsBlank(s[i])
  }

  /** The line consists of a method, a resource and a version, set apart by blanks. */
  ghost predicate Spells(l: seq<char>, m: seq<char>, gap: seq<char>, u: seq<char>, gap': seq<char>, v: seq<char>) {
    && l == m + gap + (u + gap' + v)
    && NoBlank(m) && Blanks(gap) && NoBlank(u) && u != [] && Blanks(gap') && (v != [] ==> !IsBlank(v[0]))
  }

  /** The tokens ask for `url` with the method `verb`, in HTTP/1.1. */
  ghost predicate Wants(m: seq<char>, u: seq<char>, v: seq<char>, verb: Method, url: seq<char>) {
    MethodOf(m) == Some(verb) && SameFold(v, VERSION) && Leads(Resource(u), url)
  }

  /** The resource is a path, and `url` is its page. */
  ghost predicate Leads(resource: Option<seq<char>>, url: seq<char>) {
    resource.Some? && resource.value != [] && resource.value[0] == '/' && url == Page(resource.value)
  }

  ghost predicate Asks(l: seq<char>, m: seq<char>, gap: seq<char>, u: seq<char>, gap': seq<char>, v: seq<char>, verb: Method, url: seq<char>) {
    Spells(l, m, gap, u, gap', v) && Wants(m, u, v, verb, url)
  }

  /** Acceptance in terms of the tokens that the parser finds. */
  ghost predicate FindsTokens(l: seq<char>, verb: Method, url: seq<char>) {
    var p := FirstBlank(l);
    p < |l| &&
    var us := NextToken(l, p); var q := FirstBlank(us);
    q < |us| && Wants(l[..p], us[..q], NextToken(us, q), verb, url)
  }

  lemma AcceptedMeans(l: seq<char>, verb: Method, url: seq<char>)
    ensures LineVerdict(l) == Verdict(NoRequest, Some(Request(verb, url))) <==> FindsTokens(l, verb, url)
  {
    var p := FirstBlank(l);
    if p < |l| && MethodOf(l[..p]).Some? {
      TargetMeans(MethodOf(l[..p]).value, NextToken(l, p), verb, url);
    }
  }

  lemma TargetMeans(verb: Method, us: seq<char>, verb': Method, url: seq<char>)
    ensures TargetVerdict(verb, us) == Verdict(NoRequest, Some(Request(verb', url))) <==>
      var q := FirstBlank(us);
      q < |us| && SameFold(NextToken(us, q), VERSION) && verb == verb' && Leads(Resource(us[..q]), url)
  {
    var q := FirstBlank(us);
    if q < |us| { JudgeMeans(verb, Resource(us[..q]), verb', url); }
  }

  lemma JudgeMeans(verb: Method, resource: Option<seq<char>>, verb': Method, url: seq<char>)
    ensures Judge(verb, resource) == Verdict(NoRequest, Some(Request(verb', url))) <==>
      verb == verb' && Leads(resource, url)
  {
  }

  /** A token and the blanks after it are found as they were put together. */
  lemma TokenFound(m: seq<char>, gap: seq<char>, rest: seq<char>)
    requires NoBlank(m) && Blanks(gap) && (rest != [] ==> !IsBlank(rest[0]))
    ensures var l := m + gap + rest;
      FirstBlank(l) == |m| < |l| && l[..|m|] == m && NextToken(l, |m|) == rest
  {
    var l := m + gap + rest;
    assert forall i :: 0 <= i < |m| ==> l[i] == m[i];
    assert l[|m|] == gap[0];
    var t := l[|m| + 1..];
    assert t == gap[1..] + rest;
    assert forall i :: 0 <= i < |gap| - 1 ==> t[i] == gap[i + 1];
    assert |rest| > 0 ==> t[|gap| - 1] == rest[0];
    assert LeadingBlanks(t) == |gap| - 1;
  }

  /** Where there is a blank, the line does consist of a token, blanks and a rest. */
  lemma TokenSplit(l: seq<char>) returns (gap: seq<char>)
    requires FirstBlank(l) < |l|
    ensures var p := FirstBlank(l); var rest := NextToken(l, p);
      && l == l[..p] + gap + rest && NoBlank(l[..p]) && Blanks(gap) && (rest != [] ==> !IsBlank(rest[0]))
  {
    var p := FirstBlank(l);
    gap := Gap(l, p);
    GapBlank(l, p);
    ThreeParts(l, p, LeadingBlanks(l[p + 1..]));
  }

  /** The blank at position `p` and those that follow it. */
  ghost function Gap(l: seq<char>, p: nat): seq<char>
    requires p < |l|
  {
    l[p..p + 1 + LeadingBlanks(l[p + 1..])]
  }

  lemma GapBlank(l: seq<char>, p: nat)
    requires p < |l| && IsBlank(l[p])
    ensures Blanks(Gap(l, p))
  {
    var gap, t := Gap(l, p), l[p + 1..];
    forall i | 0 <= i < |gap|
      ensures IsBlank(gap[i])
    {
      if i > 0 { assert gap[i] == t[i - 1]; }
    }
  }

  lemma ThreeParts(l: seq<char>, p: nat, n: nat)
    requires p + 1 + n <= |l|
    ensures l == l[..p] + l[p..p + 1 + n] + l[p + 1..][n..]
  {
    assert l[p + 1..][n..] == l[p + 1 + n..];
  }

  /** A line put together from tokens and blanks: the parser finds the tokens. */
  lemma SpelledFound(l: seq<char>, m: seq<char>, gap: seq<char>, u: seq<char>, gap': seq<char>, v: seq<char>)
    requires Spells(l, m, gap, u, gap', v)
    ensures FirstBlank(l) == |m| < |l| && l[..|m|] == m
    ensures var us := NextToken(l, |m|); FirstBlank(us) == |u| < |us| && us[..|u|] == u && NextToken(us, |u|) == v
  {
    var us := u + gap' + v;
    assert us[0] == u[0];
    TokenFound(m, gap, us);
    TokenFound(u, gap', v);
  }

  lemma AskedIsAccepted(l: seq<char>, m: seq<char>, gap: seq<char>, u: seq<char>, gap': seq<char>, v: seq<char>, verb: Method, url: seq<char>)
    requires Asks(l, m, gap, u, gap', v, verb, url)
    ensures LineVerdict(l) == Verdict(NoRequest, Some(Request(verb, url)))
  {
    SpelledFound(l, m, gap, u, gap', v);
    AcceptedMeans(l, verb, url);
  }

  /** A line with two tokens and a rest is put together from them. */
  lemma TwoTokens(l: seq<char>) returns (gap: seq<char>, gap': seq<char>)
    requires FirstBlank(l) < |l|
    requires var us := NextToken(l, FirstBlank(l)); FirstBlank(us) < |us|
    ensures var p := FirstBlank(l); var us := NextToken(l, p); var q := FirstBlank(us);
      Spells(l, l[..p], gap, us[..q], gap', NextToken(us, q))
  {
    var us := NextToken(l, FirstBlank(l));
    gap := TokenSplit(l);
    gap' := TokenSplit(us);
    assert us[..FirstBlank(us)] != [];
  }

  lemma AcceptedIsAsked(l: seq<char>, verb: Method, url: seq<char>)
    requires LineVerdict(l) == Verdict(NoRequest, Some(Request(verb, url)))
    ensures exists m, gap, u, gap', v :: Asks(l, m, gap, u, gap', v, verb, url)
  {
    AcceptedMeans(l, verb, url);
    var p := FirstBlank(l);
    var us := NextToken(l, p);
    var q := FirstBlank(us);
    var gap, gap' := TwoTokens(l);
    assert Asks(l, l[..p], gap, us[..q], gap', NextToken(us, q), verb, url);
  }

  /** Exactly the lines of the right form are accepted, each with its own method and resource. */
  lemma AcceptedExactly(l: seq<char>, verb: Method, url: seq<char>)
    ensures LineVerdict(l) == Verdict(NoRequest, Some(Request(verb, url)))
       <==> exists m, gap, u, gap', v :: Asks(l, m, gap, u, gap', v, verb, url)
  {
    if LineVerdict(l) == Verdict(NoRequest, Some(Request(verb, url))) {
      AcceptedIsAsked(l, verb, url);
    }
    if m, gap, u, gap', v :| Asks(l, m, gap, u, gap', v, verb, url) {
      AskedIsAccepted(l, m, gap, u, gap', v, verb, url);
    }
  }

  /** A path is its own resource: no prefix test applies to it. */
  lemma PathIsResource(u: seq<char>)
    requires u != [] && u[0] == '/'
    ensures Resource(u) == Some(u)
  {
    assert !StartsFold(u, HTTP_PREFIX) by {
      assert Lower(u[0]) == '/' && Lower(HTTP_PREFIX[0]) == 'h';
      assert |HTTP_PREFIX| <= |u| ==> u[..|HTTP_PREFIX|][0] == u[0];
    }
    assert u[0..] == u;
    assert !StartsFold(u, HTTPS_PREFIX) by {
      assert Lower(u[0]) == '/' && Lower(HTTPS_PREFIX[0]) == 'h';
      assert |HTTPS_PREFIX| <= |u| ==> u[..|HTTPS_PREFIX|][0] == u[0];
    }
  }

  /** A string that differs only in case from one without blanks has none either. */
  lemma FoldedNoBlank(m: seq<char>, name: seq<char>)
    requires SameFold(m, name) && NoBlank(name)
    ensures NoBlank(m)
  {
    forall i | 0 <= i < |m|
      ensures !IsBlank(m[i])
    {
      assert Lower(m[i]) == Lower(name[i]) && !IsBlank(name[i]);
    }
  }

  lemma MethodNames(m: seq<char>)
    ensures SameFold(m, "GET") ==> NoBlank(m) && MethodOf(m) == Some(GET)
    ensures SameFold(m, "POST") ==> NoBlank(m) && MethodOf(m) == None
  {
    assert NoBlank("GET") && NoBlank("POST");
    if SameFold(m, "GET") { FoldedNoBlank(m, "GET"); }
    if SameFold(m, "POST") {
      FoldedNoBlank(m, "POST");
      assert Lower(m[3]) == Lower("POST"[3]) == 't' && Lower("POSE"[3]) == 'e';
    }
  }

  lemma VersionStarts(v: seq<char>)
    requires SameFold(v, VERSION)
    ensures v != [] && !IsBlank(v[0])
  {
    assert Lower(v[0]) == Lower(VERSION[0]) == 'h';
  }

  /** A GET request for a path, in any case and with any blanks, is accepted with that path, and for "/" with the page. */
  lemma GetPath(m: seq<char>, gap: seq<char>, u: seq<char>, gap': seq<char>, v: seq<char>)
    requires SameFold(m, "GET") && Blanks(gap) && u != [] && u[0] == '/' && NoBlank(u) && Blanks(gap') && SameFold(v, VERSION)
    ensures LineVerdict(m + gap + (u + gap' + v)) ==
            Verdict(NoRequest, Some(Request(GET, if u == "/" then "/judge.html" else u)))
  {
    MethodNames(m);
    VersionStarts(v);
    PathIsResource(u);
    PathPage(u);
    AskedIsAccepted(m + gap + (u + gap' + v), m, gap, u, gap', v, GET, Page(u));
  }

  lemma PathPage(u: seq<char>)
    requires u != [] && u[0] == '/'
    ensures Page(u) == if u == "/" then "/judge.html" else u
  {
    if |u| == 1 { assert u == "/"; }
  }

  /** The method name is compared with "POSE", so that every POST request, in any case, is turned away. */
  lemma PostIsRejected(m: seq<char>, gap: seq<char>, rest: seq<char>)
    requires SameFold(m, "POST") && Blanks(gap) && (rest != [] ==> !IsBlank(rest[0]))
    ensures LineVerdict(m + gap + rest) == Verdict(BadRequest, None)
  {
    MethodNames(m);
    TokenFound(m, gap, rest);
  }

  // ---------- The lines that lead to a null pointer ----------

  /** The tokens are in order, but strchr() finds no slash behind the first prefix. */
  ghost predicate LosesUrl(m: seq<char>, u: seq<char>, v: seq<char>) {
    && MethodOf(m).Some? && SameFold(v, VERSION)
    && StartsFold(u, HTTP_PREFIX) && '/' !in u[|HTTP_PREFIX|..]
  }

  ghost predicate FindsNull(l: seq<char>) {
    var p := FirstBlank(l);
    p < |l| &&
    var us := NextToken(l, p); var q := FirstBlank(us);
    q < |us| && LosesUrl(l[..p], us[..q], NextToken(us, q))
  }

  lemma NoSlash(u: seq<char>, prefix: seq<char>)
    requires StartsFold(u, prefix)
    ensures NoSlashAfter(u, prefix) <==> '/' !in u[|prefix|..]
  {
    var t := u[|prefix|..];
    assert FirstSlash(t) < |t| ==> t[FirstSlash(t)] == '/';
  }

  lemma UndefinedMeans(l: seq<char>)
    ensures LineVerdict(l).code == Undefined <==> FindsNull(l)
  {
    var p := FirstBlank(l);
    if p < |l| {
      var us := NextToken(l, p);
      var q := FirstBlank(us);
      if q < |us| && StartsFold(us[..q], HTTP_PREFIX) { NoSlash(us[..q], HTTP_PREFIX); }
    }
  }

  lemma LostIsUndefined(l: seq<char>, m: seq<char>, gap: seq<char>, u: seq<char>, gap': seq<char>, v: seq<char>)
    requires Spells(l, m, gap, u, gap', v) && LosesUrl(m, u, v)
    ensures LineVerdict(l).code == Undefined
  {
    SpelledFound(l, m, gap, u, gap', v);
    UndefinedMeans(l);
  }

  lemma UndefinedIsLost(l: seq<char>)
    requires FindsNull(l)
    ensures exists m, gap, u, gap', v :: Spells(l, m, gap, u, gap', v) && LosesUrl(m, u, v)
  {
    var p := FirstBlank(l);
    var us := NextToken(l, p);
    var q := FirstBlank(us);
    var gap, gap' := TwoTokens(l);
    assert Spells(l, l[..p], gap, us[..q], gap', NextToken(us, q)) && LosesUrl(l[..p], us[..q], NextToken(us, q));
  }

  /** The code goes on with a null pointer exactly on well-formed lines whose http prefix no slash follows. */
  lemma UndefinedExactly(l: seq<char>)
    ensures LineVerdict(l).code == Undefined
       <==> exists m, gap, u, gap', v :: Spells(l, m, gap, u, gap', v) && LosesUrl(m, u, v)
  {
    UndefinedMeans(l);
    if FindsNull(l) {
      UndefinedIsLost(l);
    }
    if m, gap, u, gap', v :| Spells(l, m, gap, u, gap', v) && LosesUrl(m, u, v) {
      LostIsUndefined(l, m, gap, u, gap', v);
    }
  }

  /** For one, on a request for http::/x. */
  lemma UndefinedWitness()
    ensures LineVerdict("GET http::/x HTTP/1.1").code == Undefined
  {
    WitnessLoses();
    VersionStarts(VERSION);
    assert "GET" + " " + ("http::/x" + " " + VERSION) == "GET http::/x HTTP/1.1";
    LostIsUndefined("GET http::/x HTTP/1.1", "GET", " ", "http::/x", " ", VERSION);
  }

  lemma WitnessLoses()
    ensures NoBlank("GET") && Blanks(" ") && NoBlank("http::/x") && LosesUrl("GET", "http::/x", VERSION)
  {
    MethodNames("GET");
    var u := "http::/x";
    assert u[..|HTTP_PREFIX|] == HTTP_PREFIX && u[|HTTP_PREFIX|..] == "x";
  }

  // ---------- Lemmas about strings in a buffer ----------

  lemma {:induction false} CStrIs(b: seq<char>, i: nat)
    requires i <= |b|
    ensures i + |CStr(b, i)| <= |b| && CStr(b, i) == b[i..i + |CStr(b, i)|] && NUL !in CStr(b, i)
    ensures i + |CStr(b, i)| < |b| ==> b[i + |CStr(b, i)|] == NUL
    decreases |b| - i
  {
    if i < |b| && b[i] != NUL { CStrIs(b, i + 1); }
  }

  lemma {:induction false} CStrEnds(b: seq<char>, i: nat, hi: nat)
    requires i <= hi < |b| && b[hi] == NUL
    ensures i + |CStr(b, i)| <= hi
    decreases |b| - i
  {
    if b[i] != NUL { CStrEnds(b, i + 1, hi); }
  }

  /** A string without NUL, followed by a NUL, is the C string there. */
  lemma {:induction false} CStrFrom(b: seq<char>, i: nat, s: seq<char>)
    requires i + |s| < |b| && b[i..i + |s|] == s && NUL !in s && b[i + |s|] == NUL
    ensures CStr(b, i) == s
    decreases |s|
  {
    if s != [] {
      assert b[i] == s[0] && s[0] in s;
      assert b[i + 1..i + 1 + |s[1..]|] == s[1..];
      CStrFrom(b, i + 1, s[1..]);
    }
  }

  lemma {:induction false} CStrDrop(b: seq<char>, i: nat, p: nat)
    requires i <= |b| && p <= |CStr(b, i)|
    ensures CStr(b, i + p) == CStr(b, i)[p..]
    decreases p
  {
    if p > 0 { CStrDrop(b, i + 1, p - 1); }
  }

  /** Ending a string early leaves what follows the new NUL as it was. */
  lemma CutString(b: seq<char>, i: nat, p: nat, hi: nat)
    requires i <= hi < |b| && b[hi] == NUL && p < |CStr(b, i)|
    ensures i + p < hi
    ensures CStr(b[i + p := NUL], i) == CStr(b, i)[..p]
    ensures CStr(b[i + p := NUL], i + p + 1) == CStr(b, i)[p + 1..]
  {
    CStrIs(b, i);
    CStrEnds(b, i, hi);
    var s, c := CStr(b, i), b[i + p := NUL];
    CStrFrom(c, i, s[..p]);
    assert c[i + p + 1..i + |s|] == s[p + 1..];
    CStrFrom(c, i + p + 1, s[p + 1..]);
  }

  // ---------- The edits in the buffer ----------

  /** Bytes change only in the line and its two NULs, at text..hi+1, and never to a CR. */
  ghost predicate OnlyWithin(b: seq<char>, b': seq<char>, text: nat, hi: nat) {
    |b'| == |b| && forall k :: 0 <= k < |b| ==> b'[k] == b[k] || (text <= k <= hi + 1 && b'[k] != CR)
  }

  /** An earlier NUL and later edits together stay within the line. */
  lemma CutThenEdit(b: seq<char>, b1: seq<char>, b2: seq<char>, text: nat, k: nat, next: nat, hi: nat)
    requires text <= k < hi && text <= next && k < |b| && b1 == b[k := NUL] && OnlyWithin(b1, b2, next, hi)
    ensures OnlyWithin(b, b2, text, hi)
  {
  }

  /** strcat(m_url, "judge.html"), when the string at `url` has length 1. */
  method AppendPage(buf: array<char>, url: nat)
    requires url + 11 < buf.Length && CStr(buf[..], url) == "/"
    modifies buf
    ensures CStr(buf[..], url) == "/judge.html"
    ensures forall k :: url < k <= url + 11 ==> buf[k] != CR
    ensures forall k :: 0 <= k < buf.Length && !(url < k <= url + 11) ==> buf[k] == old(buf[k])
  {
    var page := "judge.html";
    CStrIs(buf[..], url);
    assert buf[url] == '/';
    var i := 0;
    while i < |page|
      invariant 0 <= i <= |page| && CR !in page
      invariant forall k :: 0 <= k < i ==> buf[url + 1 + k] == page[k]
      invariant forall k :: 0 <= k < buf.Length && !(url < k <= url + i) ==> buf[k] == old(buf[k])
    {
      buf[url + 1 + i] := page[i];
      i := i + 1;
    }
    buf[url + 11] := NUL;
    assert forall k :: 0 <= k < 11 ==> buf[..][url + k] == ("/" + page)[k];
    assert buf[..][url..url + 11] == "/" + page == "/judge.html";
    CStrFrom(buf[..], url, "/judge.html");
  }

  /** The first blank ends a token; the next one starts after the blanks that follow. */
  method EndToken(buf: array<char>, start: nat, ghost hi: nat) returns (end: Option<nat>, next: nat)
    requires start <= hi < buf.Length && buf[hi] == NUL
    modifies buf
    ensures var l := old(CStr(buf[..], start)); var p := FirstBlank(l);
      && (end.None? <==> p == |l|)
      && (end.None? ==> buf[..] == old(buf[..]))
      && (end.Some? ==>
        && end.value == start + p < hi && end.value < next <= hi
        && buf[..] == old(buf[..])[start + p := NUL] && buf[hi] == NUL
        && CStr(buf[..], start) == l[..p]
        && CStr(buf[..], next) == NextToken(l, p))
  {
    var l := CStr(buf[..], start);
    var p := FirstBlank(l);
    if p == |l| {
      return None, start;
    }
    CutString(buf[..], start, p, hi);
    buf[start + p] := NUL;
    assert buf[..] == old(buf[..])[start + p := NUL];
    var rest := CStr(buf[..], start + p + 1);
    next := start + p + 1 + LeadingBlanks(rest);
    CStrDrop(buf[..], start + p + 1, LeadingBlanks(rest));
    CStrEnds(buf[..], start + p + 1, hi);
    end := Some(start + p);
  }

  /** One prefix test: the string that starts `d` characters further on. */
  method SkipPrefix(buf: array<char>, url0: nat, prefix: seq<char>) returns (url: nat, lost: bool)
    requires url0 <= buf.Length
    ensures var u := CStr(buf[..], url0);
      && lost == NoSlashAfter(u, prefix)
      && url == url0 + Skipped(u, prefix)
      && CStr(buf[..], url) == u[Skipped(u, prefix)..]
  {
    var u := CStr(buf[..], url0);
    var d := Skipped(u, prefix);
    CStrDrop(buf[..], url0, d);
    url, lost := url0 + d, NoSlashAfter(u, prefix);
  }

  /** What the parser stored agrees with the verdict; the stored fields matter only on success. */
  ghost predicate Agrees(v: Verdict, code: Code, verb: Option<Method>, url: seq<char>) {
    && code == v.code
    && (code == NoRequest ==> verb.Some? && v.request == Some(Request(verb.value, url)))
  }

  /** The end of parse_request_line(), from the prefix tests on. */
  method FinishResource(buf: array<char>, url0: nat, verb: Method, ghost end: nat, ghost hi: nat)
    returns (code: Code, url: nat)
    requires url0 <= end && end + 10 <= hi + 1 < buf.Length && end == url0 + |CStr(buf[..], url0)|
    modifies buf
    ensures OnlyWithin(old(buf[..]), buf[..], url0, hi)
    ensures code == NoRequest ==> url + |CStr(buf[..], url)| <= hi + 1
    ensures Agrees(Judge(verb, Resource(old(CStr(buf[..], url0)))), code, Some(verb), CStr(buf[..], url))
  {
    var mid, lost := SkipPrefix(buf, url0, HTTP_PREFIX);
    if lost {
      return Undefined, url0;
    }
    url, lost := SkipPrefix(buf, mid, HTTPS_PREFIX);
    var w := CStr(buf[..], url);
    if w == [] || w[0] != '/' {
      return BadRequest, url;
    }
    code := NoRequest;
    if |w| == 1 {
      assert w == "/" && url + 1 == end;
      assert Page(w) == "/judge.html";
      AppendPage(buf, url);
    }
  }

  /** parse_request_line() from the resource on. */
  method ParseTarget(buf: array<char>, url0: nat, verb: Method, ghost hi: nat)
    returns (code: Code, url: nat, version: nat)
    requires url0 <= hi && hi + 1 < buf.Length && buf[hi] == NUL
    modifies buf
    ensures OnlyWithin(old(buf[..]), buf[..], url0, hi)
    ensures code == NoRequest ==> url + |CStr(buf[..], url)| <= hi + 1
    ensures Agrees(TargetVerdict(verb, old(CStr(buf[..], url0))), code, Some(verb), CStr(buf[..], url))
  {
    var end;
    end, version := EndToken(buf, url0, hi);
    url := url0;
    if end.None? {
      return BadRequest, url, version;
    }
    ghost var b1 := buf[..];
    CutThenEdit(old(buf[..]), b1, b1, url0, end.value, url0, hi);
    CStrEnds(buf[..], version, hi);
    if !SameFold(CStr(buf[..], version), VERSION) {
      return BadRequest, url, version;
    }
    code, url := FinishResource(buf, url0, verb, end.value, hi);
    CutThenEdit(old(buf[..]), b1, buf[..], url0, end.value, url0, hi);
  }

  /** parse_request_line() on the line that starts at `text` and whose CR LF, at `hi`, became two NULs. */
  method ParseRequestLine(buf: array<char>, text: nat, ghost hi: nat)
    returns (code: Code, verb: Option<Method>, url: nat, version: nat)
    requires text <= hi && hi + 1 < buf.Length && buf[hi] == NUL
    modifies buf
    ensures OnlyWithin(old(buf[..]), buf[..], text, hi)
    ensures code == NoRequest ==> url + |CStr(buf[..], url)| <= hi + 1
    ensures Agrees(LineVerdict(old(CStr(buf[..], text))), code, verb, CStr(buf[..], url))
  {
    verb, url, version := None, text, text;
    var end, next := EndToken(buf, text, hi);
    if end.None? {
      return BadRequest, verb, url, version;
    }
    ghost var b1 := buf[..];
    CutThenEdit(old(buf[..]), b1, b1, text, end.value, next, hi);
    verb := MethodOf(CStr(buf[..], text));
    if verb.None? {
      return BadRequest, verb, url, version;
    }
    code, url, version := ParseTarget(buf, next, verb.value, hi);
    CutThenEdit(old(buf[..]), b1, buf[..], text, end.value, next, hi);
  }

  // ---------- After the scanner ----------

  /** A line that follows in the buffer and its two NULs start at its own offset. */
  lemma LineInBuffer(b: seq<char>, text: nat, l: seq<char>)
    requires text + |l| + 2 <= |b| && b[text..text + |l| + 2] == l + [NUL, NUL]
    ensures b[text + |l|] == NUL && CStr(b, text) == CStr(l, 0)
  {
    assert b[text + |l|] == b[text..text + |l| + 2][|l|];
    CStrIs(l, 0);
    var s := CStr(l, 0);
    assert b[text..text + |s|] == b[text..text + |l| + 2][..|s|] == l[..|s|];
    assert b[text + |s|] == b[text..text + |l| + 2][|s|];
    CStrFrom(b, text, s);
  }

  /** What was stored for line `l` agrees with its verdict, and an accepted resource lies before `n`. */
  ghost predicate StoredBefore(b: seq<char>, n: nat, l: seq<char>, code: Code, verb: Option<Method>, url: nat) {
    && Agrees(LineVerdict(CStr(l, 0)), code, verb, CStr(b, url))
    && (code == NoRequest ==> url + |CStr(b, url)| < n)
  }

  lemma StillStored(b: seq<char>, b': seq<char>, n: nat, l: seq<char>, code: Code, verb: Option<Method>, url: nat)
    requires StoredBefore(b, n, l, code, verb, url)
    requires |b'| == |b| && n <= |b| && forall k :: 0 <= k < n ==> b'[k] == b[k]
    ensures StoredBefore(b', n, l, code, verb, url)
  {
    if code == NoRequest { CStrSame(b, b', url, n); }
  }

  /**
   The reading loop's first line: parse_line(), then parse_request_line() on it. The edits leave
   the scanner valid, so that the lines behind are still read as they were sent.
   */
  method ReadRequestLine(c: HttpConn) returns (status: LineStatus, code: Code, verb: Option<Method>, url: nat)
    requires c.Valid()
    modifies c, c.buf
    ensures c.Valid() && c.Untouched(c.startLine) && c.raw == old(c.raw) && c.readIdx == old(c.readIdx)
    ensures forall k :: c.checkedIdx <= k < c.buf.Length ==> c.buf[k] == old(c.buf[k])
    ensures status == LineOk ==>
      && |c.lines| == |old(c.lines)| + 1 && c.lines[..|old(c.lines)|] == old(c.lines)
      && LineAt(c.raw, old(c.startLine), c.lines[|old(c.lines)|])
      && c.startLine == old(c.startLine) + |c.lines[|old(c.lines)|]| + 2
      && StoredBefore(c.buf[..], c.startLine, c.lines[|old(c.lines)|], code, verb, url)
    ensures status != LineOk ==> c.lines == old(c.lines) && Reading(c.raw, c.lines, c.checkedIdx, status)
  {
    var text;
    status, text := c.NextLine(c.startLine);
    code, verb, url := NoRequest, None, 0;
    if status == LineOk {
      ghost var l := c.lines[|c.lines| - 1];
      LineInBuffer(c.buf[..], text, l);
      var version;
      code, verb, url, version := ParseRequestLine(c.buf, text, text + |l|);
    }
  }

  /**
   The lines after the request line come out as they were sent, whatever the edits did; and the
   accepted method and resource are still there when all those lines have been read.
   */
  method RequestThenHeaders(c: HttpConn) returns (status: LineStatus, code: Code, verb: Option<Method>, url: nat)
    requires c.Valid()
    modifies c, c.buf
    ensures c.Valid() && c.raw == old(c.raw) && Reading(c.raw, c.lines, c.checkedIdx, status)
    ensures old(c.lines) <= c.lines
    ensures |c.lines| > |old(c.lines)| ==> var l := c.lines[|old(c.lines)|];
      var n := old(c.startLine) + |l| + 2;
      c.Untouched(n) && StoredBefore(c.buf[..], n, l, code, verb, url)
  {
    status, code, verb, url := ReadRequestLine(c);
    if status == LineOk {
      ghost var b, n, l := c.buf[..], c.startLine, c.lines[|c.lines| - 1];
      status := c.Drain(c.startLine);
      StillStored(b, c.buf[..], n, l, code, verb, url);
    }
  }

  /** A string that ends before position `n` depends only on what is before `n`. */
  lemma CStrSame(b: seq<char>, b': seq<char>, i: nat, n: nat)
    requires |b'| == |b| && i + |CStr(b, i)| < n <= |b| && forall k :: 0 <= k < n ==> b'[k] == b[k]
    ensures CStr(b', i) == CStr(b, i)
  {
    CStrIs(b, i);
    CStrFrom(b', i, CStr(b, i));
  }
}
