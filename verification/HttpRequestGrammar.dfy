/**
 The request lines that TinyWebServer/http/http_conn.cpp accepts, in plain characters and without
 the tables and functions of the parser.
 */
module HttpRequestGrammar {
  import opened Options
  import opened HttpRequestLine

  // ---------- Letters and blanks ----------

  /** The same character, or the same letter in the other case. */
  ghost predicate SameLetter(a: char, b: char) {
    || a == b
    || ('A' <= a <= 'Z' && b as int == a as int + 32)
    || ('A' <= b <= 'Z' && a as int == b as int + 32)
  }

  ghost predicate Alike(s: seq<char>, t: seq<char>) {
    |s| == |t| && forall i :: 0 <= i < |s| ==> SameLetter(s[i], t[i])
  }

  ghost predicate NoSpace(s: seq<char>) {
    forall i :: 0 <= i < |s| ==> s[i] != ' ' && s[i] != '\t'
  }

  ghost predicate Spaces(s: seq<char>) {
    s != [] && forall i :: 0 <= i < |s| ==> s[i] == ' ' || s[i] == '\t'
  }

  lemma LowerLetter(a: char, b: char)
    ensures Lower(a) == Lower(b) <==> SameLetter(a, b)
  {
  }

  /** strcasecmp() tells strings apart exactly if they differ in more than case. */
  lemma FoldIsAlike(s: seq<char>, t: seq<char>)
    ensures SameFold(s, t) <==> Alike(s, t)
  {
    forall i | 0 <= i < |s| && |s| == |t|
      ensures Lower(s[i]) == Lower(t[i]) <==> SameLetter(s[i], t[i])
    {
      LowerLetter(s[i], t[i]);
    }
  }

  lemma SpacesAre(s: seq<char>)
    ensures NoSpace(s) <==> NoBlank(s)
    ensures Spaces(s) <==> Blanks(s)
  {
  }

  // ---------- The method ----------

  /** The name of the method as the code spells it; a POST request would have to say POSE. */
  ghost predicate Spelling(m: seq<char>, verb: Method) {
    match verb case GET => Alike(m, "GET") case POST => Alike(m, "POSE")
  }

  lemma MethodSpelled(m: seq<char>, verb: Method)
    ensures MethodOf(m) == Some(verb) <==> Spelling(m, verb)
    ensures MethodOf(m) == None <==> !Alike(m, "GET") && !Alike(m, "POSE")
  {
    FoldIsAlike(m, "GET");
    FoldIsAlike(m, "POSE");
    assert |"GET"| == 3 && |"POSE"| == 4;
  }

  /** Any other name is turned away, whatever follows it. */
  lemma UnknownMethod(m: seq<char>, gap: seq<char>, rest: seq<char>)
    requires NoSpace(m) && Spaces(gap) && NoSpace(rest[..if rest == [] then 0 else 1])
    requires !Alike(m, "GET") && !Alike(m, "POSE")
    ensures LineVerdict(m + gap + rest) == Verdict(BadRequest, None)
  {
    MethodSpelled(m, GET);
    SpacesAre(m);
    SpacesAre(gap);
    if rest != [] { assert rest[..1][0] == rest[0]; }
    TokenFound(m, gap, rest);
  }

  /** An accepted line carries the method that its first token spells. */
  lemma VerbSpelled(m: seq<char>, gap: seq<char>, rest: seq<char>, verb: Method, url: seq<char>)
    requires NoSpace(m) && Spaces(gap) && NoSpace(rest[..if rest == [] then 0 else 1])
    requires LineVerdict(m + gap + rest) == Verdict(NoRequest, Some(Request(verb, url)))
    ensures (verb == GET <==> Alike(m, "GET")) && (verb == POST <==> Alike(m, "POSE"))
  {
    MethodSpelled(m, GET);
    MethodSpelled(m, POST);
    SpacesAre(m);
    SpacesAre(gap);
    if rest != [] { assert rest[..1][0] == rest[0]; }
    TokenFound(m, gap, rest);
    AcceptedMeans(m + gap + rest, verb, url);
  }

  // ---------- The resource ----------

  /** `u` is the path `w`, or has an http or https prefix, a host and then the path. */
  ghost predicate Locates(u: seq<char>, pre: seq<char>, host: seq<char>, w: seq<char>) {
    && u == pre + (host + w) && w != [] && w[0] == '/' && '/' !in host
    && ((pre == [] && host == []) || Alike(pre, "http::/") || Alike(pre, "https::/"))
  }

  lemma StartsAlike(u: seq<char>, prefix: seq<char>)
    ensures StartsFold(u, prefix) <==> |prefix| <= |u| && Alike(u[..|prefix|], prefix)
  {
    if |prefix| <= |u| { FoldIsAlike(u[..|prefix|], prefix); }
  }

  /** Behind a prefix, the first slash ends the host. */
  lemma HostEnds(pre: seq<char>, host: seq<char>, w: seq<char>)
    requires '/' !in host && w != [] && w[0] == '/'
    ensures (pre + (host + w))[|pre|..] == host + w && FirstSlash(host + w) == |host|
  {
    var t := host + w;
    assert t[|host|] == '/';
    assert forall i :: 0 <= i < |host| ==> t[i] == host[i] && host[i] in host;
  }

  lemma PrefixSkipped(pre: seq<char>, host: seq<char>, w: seq<char>, prefix: seq<char>)
    requires '/' !in host && w != [] && w[0] == '/' && Alike(pre, prefix)
    ensures var u := pre + (host + w);
      StartsFold(u, prefix) && Skipped(u, prefix) == |pre| + |host| && u[Skipped(u, prefix)..] == w
  {
    var u := pre + (host + w);
    assert u[..|pre|] == pre;
    StartsAlike(u, prefix);
    HostEnds(pre, host, w);
    assert u[|pre| + |host|..] == w;
  }

  lemma NotHttp(pre: seq<char>, rest: seq<char>)
    requires Alike(pre, "https::/")
    ensures !StartsFold(pre + rest, HTTP_PREFIX)
  {
    var u := pre + rest;
    assert u[..7][4] == u[4] == pre[4];
    assert SameLetter(pre[4], "https::/"[4]);
    assert Lower(pre[4]) == 's' && Lower(HTTP_PREFIX[4]) == ':';
  }

  lemma LocatedIsResource(u: seq<char>, pre: seq<char>, host: seq<char>, w: seq<char>)
    requires Locates(u, pre, host, w)
    ensures Resource(u) == Some(w)
  {
    PathIsResource(w);
    if Alike(pre, "http::/") {
      PrefixSkipped(pre, host, w, HTTP_PREFIX);
    } else if Alike(pre, "https::/") {
      NotHttp(pre, host + w);
      PrefixSkipped(pre, host, w, HTTPS_PREFIX);
      assert u[0..] == u;
    } else {
      assert u == w;
    }
  }

  /** Where the resource is a path, the pieces in front of it are a prefix and a host, or nothing. */
  lemma ResourceIsLocated(u: seq<char>, w: seq<char>) returns (pre: seq<char>, host: seq<char>)
    requires Resource(u) == Some(w) && w != [] && w[0] == '/'
    ensures Locates(u, pre, host, w)
  {
    if StartsFold(u, HTTP_PREFIX) {
      pre, host := Pieces(u, HTTP_PREFIX);
      PathIsResource(u[Skipped(u, HTTP_PREFIX)..]);
      AfterHttp(u);
    } else {
      assert u[0..] == u;
      if StartsFold(u, HTTPS_PREFIX) {
        pre, host := Pieces(u, HTTPS_PREFIX);
      } else {
        pre, host := [], [];
        assert u == [] + ([] + w);
      }
    }
  }

  lemma AfterHttp(u: seq<char>)
    requires StartsFold(u, HTTP_PREFIX) && Skipped(u, HTTP_PREFIX) < |u|
    ensures Resource(u) == Some(u[Skipped(u, HTTP_PREFIX)..])
  {
    var w := u[Skipped(u, HTTP_PREFIX)..];
    assert w[0] == '/';
    PathIsResource(w);
    NoHttpsBeforeSlash(w);
    assert w[0..] == w;
  }

  lemma NoHttpsBeforeSlash(w: seq<char>)
    requires w != [] && w[0] == '/'
    ensures !StartsFold(w, HTTPS_PREFIX)
  {
    assert Lower(w[0]) == '/' && Lower(HTTPS_PREFIX[0]) == 'h';
    assert |HTTPS_PREFIX| <= |w| ==> w[..|HTTPS_PREFIX|][0] == w[0];
  }

  lemma Pieces(u: seq<char>, prefix: seq<char>) returns (pre: seq<char>, host: seq<char>)
    requires StartsFold(u, prefix) && Skipped(u, prefix) < |u|
    ensures Alike(pre, prefix) && '/' !in host
    ensures var w := u[Skipped(u, prefix)..]; u == pre + (host + w) && w != [] && w[0] == '/'
  {
    var t := u[|prefix|..];
    var p := FirstSlash(t);
    StartsAlike(u, prefix);
    pre, host := u[..|prefix|], t[..p];
    assert u == pre + t && t == host + t[p..] && u[|prefix| + p..] == t[p..];
  }

  // ---------- The whole line ----------

  ghost predicate Reads(l: seq<char>, m: seq<char>, gap: seq<char>, u: seq<char>, gap': seq<char>, v: seq<char>) {
    && l == m + gap + (u + gap' + v)
    && Spaces(gap) && NoSpace(u) && u != [] && Spaces(gap') && Alike(v, "HTTP/1.1")
  }

  /** A method, spaces, a path that may have a prefix and a host, spaces, and the version. */
  ghost predicate Requests(l: seq<char>, m: seq<char>, gap: seq<char>, pre: seq<char>, host: seq<char>, w: seq<char>,
                           gap': seq<char>, v: seq<char>, verb: Method, url: seq<char>)
  {
    && Reads(l, m, gap, pre + (host + w), gap', v)
    && Spelling(m, verb) && Locates(pre + (host + w), pre, host, w)
    && url == if w == "/" then "/judge.html" else w
  }

  lemma VersionAlike(v: seq<char>)
    ensures SameFold(v, VERSION) <==> Alike(v, "HTTP/1.1")
    ensures Alike(v, "HTTP/1.1") ==> v != [] && !IsBlank(v[0])
  {
    FoldIsAlike(v, "HTTP/1.1");
    if Alike(v, "HTTP/1.1") { assert SameLetter(v[0], "HTTP/1.1"[0]); }
  }

  lemma MethodHasNoSpace(m: seq<char>)
    requires Alike(m, "GET") || Alike(m, "POSE")
    ensures NoSpace(m)
  {
    var name := if Alike(m, "GET") then "GET" else "POSE";
    assert forall i :: 0 <= i < |name| ==> 'A' <= name[i] <= 'Z';
    forall i | 0 <= i < |m| ensures m[i] != ' ' && m[i] != '\t' {
      assert SameLetter(m[i], name[i]);
    }
  }

  /** The parser's own form of a line and this one are the same. */
  lemma ReadsIsSpells(l: seq<char>, m: seq<char>, gap: seq<char>, u: seq<char>, gap': seq<char>, v: seq<char>)
    requires Alike(m, "GET") || Alike(m, "POSE")
    ensures Reads(l, m, gap, u, gap', v) <==> Spells(l, m, gap, u, gap', v) && SameFold(v, VERSION)
  {
    MethodHasNoSpace(m);
    VersionAlike(v);
    SpacesAre(m);
    SpacesAre(gap);
    SpacesAre(u);
    SpacesAre(gap');
  }

  lemma RequestIsAccepted(l: seq<char>, m: seq<char>, gap: seq<char>, pre: seq<char>, host: seq<char>, w: seq<char>,
                          gap': seq<char>, v: seq<char>, verb: Method, url: seq<char>)
    requires Requests(l, m, gap, pre, host, w, gap', v, verb, url)
    ensures LineVerdict(l) == Verdict(NoRequest, Some(Request(verb, url)))
  {
    var u := pre + (host + w);
    MethodSpelled(m, verb);
    ReadsIsSpells(l, m, gap, u, gap', v);
    LocatedIsResource(u, pre, host, w);
    PathPage(w);
    AskedIsAccepted(l, m, gap, u, gap', v, verb, url);
  }

  lemma AskIsRequest(l: seq<char>, m: seq<char>, gap: seq<char>, u: seq<char>, gap': seq<char>, v: seq<char>, verb: Method, url: seq<char>)
    requires Asks(l, m, gap, u, gap', v, verb, url)
    ensures exists pre, host, w :: Requests(l, m, gap, pre, host, w, gap', v, verb, url)
  {
    var w := Resource(u).value;
    MethodSpelled(m, verb);
    ReadsIsSpells(l, m, gap, u, gap', v);
    PathPage(w);
    var pre, host := ResourceIsLocated(u, w);
    assert Requests(l, m, gap, pre, host, w, gap', v, verb, url);
  }

  /** Exactly these lines are accepted, each with its own method and path. */
  lemma AcceptedRequests(l: seq<char>, verb: Method, url: seq<char>)
    ensures LineVerdict(l) == Verdict(NoRequest, Some(Request(verb, url)))
       <==> exists m, gap, pre, host, w, gap', v :: Requests(l, m, gap, pre, host, w, gap', v, verb, url)
  {
    if LineVerdict(l) == Verdict(NoRequest, Some(Request(verb, url))) {
      AcceptedIsAsked(l, verb, url);
      var m, gap, u, gap', v :| Asks(l, m, gap, u, gap', v, verb, url);
      AskIsRequest(l, m, gap, u, gap', v, verb, url);
    }
    if m, gap, pre, host, w, gap', v :| Requests(l, m, gap, pre, host, w, gap', v, verb, url) {
      RequestIsAccepted(l, m, gap, pre, host, w, gap', v, verb, url);
    }
  }

  /** A known method, and a resource with the http prefix that no slash follows. */
  ghost predicate Misses(l: seq<char>, m: seq<char>, gap: seq<char>, pre: seq<char>, host: seq<char>, gap': seq<char>, v: seq<char>) {
    && Reads(l, m, gap, pre + host, gap', v)
    && (Alike(m, "GET") || Alike(m, "POSE")) && Alike(pre, "http::/") && '/' !in host
  }

  /** Exactly these lines lead to a null pointer. */
  lemma NullRequests(l: seq<char>)
    ensures LineVerdict(l).code == Undefined
       <==> exists m, gap, pre, host, gap', v :: Misses(l, m, gap, pre, host, gap', v)
  {
    if LineVerdict(l).code == Undefined {
      UndefinedMeans(l);
      UndefinedIsLost(l);
      var m, gap, u, gap', v :| Spells(l, m, gap, u, gap', v) && LosesUrl(m, u, v);
      LossIsMiss(l, m, gap, u, gap', v);
    }
    if m, gap, pre, host, gap', v :| Misses(l, m, gap, pre, host, gap', v) {
      MissIsLoss(l, m, gap, pre, host, gap', v);
    }
  }

  lemma LossIsMiss(l: seq<char>, m: seq<char>, gap: seq<char>, u: seq<char>, gap': seq<char>, v: seq<char>)
    requires Spells(l, m, gap, u, gap', v) && LosesUrl(m, u, v)
    ensures exists pre, host :: Misses(l, m, gap, pre, host, gap', v)
  {
    MethodSpelled(m, GET);
    ReadsIsSpells(l, m, gap, u, gap', v);
    StartsAlike(u, HTTP_PREFIX);
    var pre, host := u[..|HTTP_PREFIX|], u[|HTTP_PREFIX|..];
    assert u == pre + host;
    assert Misses(l, m, gap, pre, host, gap', v);
  }

  lemma MissIsLoss(l: seq<char>, m: seq<char>, gap: seq<char>, pre: seq<char>, host: seq<char>, gap': seq<char>, v: seq<char>)
    requires Misses(l, m, gap, pre, host, gap', v)
    ensures LineVerdict(l).code == Undefined
  {
    var u := pre + host;
    MethodSpelled(m, GET);
    ReadsIsSpells(l, m, gap, u, gap', v);
    assert u[..|HTTP_PREFIX|] == pre && u[|HTTP_PREFIX|..] == host;
    StartsAlike(u, HTTP_PREFIX);
    LostIsUndefined(l, m, gap, u, gap', v);
  }

  // ---------- Case does not matter ----------

  /** A line in another case falls into pieces in another case. */
  lemma AlikePieces(l: seq<char>, l': seq<char>, m: seq<char>, gap: seq<char>, u: seq<char>, gap': seq<char>, v: seq<char>)
    returns (m': seq<char>, u': seq<char>, v': seq<char>)
    requires Alike(l, l') && Reads(l, m, gap, u, gap', v)
    ensures Alike(m, m') && Alike(u, u') && Alike(v, v') && Reads(l', m', gap, u', gap', v')
  {
    var mg, rest := AlikeSplit(l', m + gap, u + gap' + v);
    var g, ug, g';
    m', g := AlikeSplit(mg, m, gap);
    ug, v' := AlikeSplit(rest, u + gap', v);
    u', g' := AlikeSplit(ug, u, gap');
    AlikeSpaces(gap, g);
    AlikeSpaces(gap', g');
    AlikeNoSpace(u, u');
    AlikeName(v, v', "HTTP/1.1");
  }

  /** What is alike a concatenation falls into two parts that are alike. */
  lemma AlikeSplit(l: seq<char>, x: seq<char>, y: seq<char>) returns (x': seq<char>, y': seq<char>)
    requires Alike(x + y, l)
    ensures l == x' + y' && Alike(x, x') && Alike(y, y')
  {
    x', y' := l[..|x|], l[|x|..];
    forall i | 0 <= i < |x| ensures SameLetter(x[i], x'[i]) { assert SameLetter((x + y)[i], l[i]); }
    forall i | 0 <= i < |y| ensures SameLetter(y[i], y'[i]) { assert SameLetter((x + y)[|x| + i], l[|x| + i]); }
  }

  lemma AlikeName(s: seq<char>, t: seq<char>, name: seq<char>)
    requires Alike(s, t)
    ensures Alike(s, name) <==> Alike(t, name)
  {
    FoldIsAlike(s, t);
    FoldIsAlike(s, name);
    FoldIsAlike(t, name);
  }

  lemma AlikeSpaces(s: seq<char>, t: seq<char>)
    requires Alike(s, t) && Spaces(s)
    ensures s == t
  {
    forall i | 0 <= i < |s| ensures s[i] == t[i] { assert SameLetter(s[i], t[i]); }
  }

  lemma AlikeNoSpace(s: seq<char>, t: seq<char>)
    requires Alike(s, t) && NoSpace(s)
    ensures NoSpace(t)
  {
    forall i | 0 <= i < |t| ensures t[i] != ' ' && t[i] != '\t' { assert SameLetter(s[i], t[i]); }
  }

  lemma AlikeSlash(s: seq<char>, t: seq<char>)
    requires Alike(s, t)
    ensures '/' in s <==> '/' in t
  {
    forall i | 0 <= i < |s| ensures s[i] == '/' <==> t[i] == '/' { assert SameLetter(s[i], t[i]); }
    assert '/' in s <==> exists i :: 0 <= i < |s| && s[i] == '/';
    assert '/' in t <==> exists i :: 0 <= i < |t| && t[i] == '/';
  }

  lemma LocatesAlike(u: seq<char>, u': seq<char>, pre: seq<char>, host: seq<char>, w: seq<char>)
    returns (pre': seq<char>, host': seq<char>, w': seq<char>)
    requires Alike(u, u') && Locates(u, pre, host, w)
    ensures Locates(u', pre', host', w') && Alike(w, w')
  {
    var rest;
    pre', rest := AlikeSplit(u', pre, host + w);
    host', w' := AlikeSplit(rest, host, w);
    AlikeSlash(host, host');
    assert SameLetter(w[0], w'[0]);
    AlikeName(pre, pre', "http::/");
    AlikeName(pre, pre', "https::/");
  }

  lemma AcceptedAlike(l: seq<char>, l': seq<char>, verb: Method, url: seq<char>) returns (url': seq<char>)
    requires Alike(l, l') && LineVerdict(l) == Verdict(NoRequest, Some(Request(verb, url)))
    ensures LineVerdict(l') == Verdict(NoRequest, Some(Request(verb, url'))) && Alike(url, url')
  {
    AcceptedRequests(l, verb, url);
    var m, gap, pre, host, w, gap', v :| Requests(l, m, gap, pre, host, w, gap', v, verb, url);
    var u := pre + (host + w);
    var m', u', v' := AlikePieces(l, l', m, gap, u, gap', v);
    var pre', host', w' := LocatesAlike(u, u', pre, host, w);
    AlikeName(m, m', "GET");
    AlikeName(m, m', "POSE");
    url' := if w' == "/" then "/judge.html" else w';
    assert |w| == 1 ==> w == "/" && w' == "/";
    assert Requests(l', m', gap, pre', host', w', gap', v', verb, url');
    AcceptedRequests(l', verb, url');
  }

  lemma UndefinedAlike(l: seq<char>, l': seq<char>)
    requires Alike(l, l') && LineVerdict(l).code == Undefined
    ensures LineVerdict(l').code == Undefined
  {
    NullRequests(l);
    var m, gap, pre, host, gap', v :| Misses(l, m, gap, pre, host, gap', v);
    var u := pre + host;
    var m', u', v' := AlikePieces(l, l', m, gap, u, gap', v);
    var pre', host' := AlikeSplit(u', pre, host);
    AlikeSlash(host, host');
    AlikeName(pre, pre', "http::/");
    AlikeName(m, m', "GET");
    AlikeName(m, m', "POSE");
    assert Misses(l', m', gap, pre', host', gap', v');
    NullRequests(l');
  }

  /** Changing the case of letters in a line changes no answer, and the resource only in case. */
  lemma CaseChangesNothing(l: seq<char>, l': seq<char>)
    requires Alike(l, l')
    ensures LineVerdict(l').code == LineVerdict(l).code
    ensures LineVerdict(l).code == NoRequest ==>
      var r, r' := LineVerdict(l).request, LineVerdict(l').request;
      r.Some? && r'.Some? && r'.value.verb == r.value.verb && Alike(r.value.url, r'.value.url)
  {
    assert Alike(l', l) by {
      FoldIsAlike(l, l');
      FoldIsAlike(l', l);
    }
    CaseKeeps(l, l');
    CaseKeeps(l', l);
  }

  lemma CaseKeeps(l: seq<char>, l': seq<char>)
    requires Alike(l, l')
    ensures LineVerdict(l).code == Undefined ==> LineVerdict(l').code == Undefined
    ensures LineVerdict(l).code == NoRequest ==>
      var r, r' := LineVerdict(l).request, LineVerdict(l').request;
      LineVerdict(l').code == NoRequest && r.Some? && r'.Some? && r'.value.verb == r.value.verb && Alike(r.value.url, r'.value.url)
  {
    if LineVerdict(l).code == Undefined {
      UndefinedAlike(l, l');
    } else if LineVerdict(l).code == NoRequest {
      var r := LineVerdict(l).request.value;
      var url' := AcceptedAlike(l, l', r.verb, r.url);
    }
  }
}
