/**
 The resumable line scanner of TinyWebServer/http/http_conn.cpp: parse_line() cuts the bytes
 received so far into lines that end with CR LF (section 2.2 of RFC 9112), and can be called
 again when more bytes have arrived.
 */
module HttpLines {
  const CR: char := '\r'
  const LF: char := '\n'
  const NUL: char := '\0'

  datatype LineStatus = LineOk | LineBad | LineOpen

  // ---------- What the bytes mean ----------

  ghost predicate IsBreak(c: char) {
    c == CR || c == LF
  }

  ghost predicate Unbroken(s: seq<char>) {
    forall i :: 0 <= i < |s| ==> !IsBreak(s[i])
  }

  ghost predicate NoBreak(raw: seq<char>, lo: nat, hi: nat) {
    hi <= |raw| && forall i :: lo <= i < hi ==> !IsBreak(raw[i])
  }

  /** Lines as they were sent, each with its CR LF. */
  ghost function Sent(lines: seq<seq<char>>): seq<char> {
    if lines == [] then [] else Sent(lines[..|lines| - 1]) + (lines[|lines| - 1] + [CR, LF])
  }

  /** Lines as parse_line() leaves them, each with two NULs. */
  ghost function Cleared(lines: seq<seq<char>>): seq<char> {
    if lines == [] then [] else Cleared(lines[..|lines| - 1]) + (lines[|lines| - 1] + [NUL, NUL])
  }

  ghost predicate AllUnbroken(lines: seq<seq<char>>) {
    forall i :: 0 <= i < |lines| ==> Unbroken(lines[i])
  }

  /**
   `raw` consists of the complete lines `lines` and then a beginning of a line, of which the
   bytes before position `k` contain no line break.
   */
  ghost predicate CutTo(raw: seq<char>, lines: seq<seq<char>>, k: nat) {
    && AllUnbroken(lines) && |Sent(lines)| <= k <= |raw|
    && raw[..|Sent(lines)|] == Sent(lines)
    && NoBreak(raw, |Sent(lines)|, k)
  }

  /** The scanner can go no further before more bytes arrive. */
  ghost predicate OpenAt(raw: seq<char>, k: nat) {
    k == |raw| || (k + 1 == |raw| && raw[k] == CR)
  }

  /** The bytes at `k` cannot be part of a well-formed line, whatever follows. */
  ghost predicate BadAt(raw: seq<char>, k: nat) {
    k < |raw| && (raw[k] == LF || (raw[k] == CR && k + 1 < |raw| && raw[k + 1] != LF))
  }

  /** The complete reading of `raw`: its lines, where the scanner stops, and why. */
  ghost predicate Reading(raw: seq<char>, lines: seq<seq<char>>, k: nat, status: LineStatus) {
    CutTo(raw, lines, k) &&
    match status
    case LineOpen => OpenAt(raw, k)
    case LineBad => BadAt(raw, k)
    case LineOk => false
  }

  // ---------- There is only one reading ----------

  lemma {:induction false} SentPrefix(lines: seq<seq<char>>, n: nat)
    requires n < |lines|
    ensures var o, l := |Sent(lines[..n])|, lines[n];
      && o + |l| + 2 <= |Sent(lines)|
      && Sent(lines)[..o] == Sent(lines[..n]) && Sent(lines)[o..o + |l|] == l
      && Sent(lines)[o + |l|] == CR && Sent(lines)[o + |l| + 1] == LF
  {
    var last := |lines| - 1;
    var init := lines[..last];
    if n < last {
      SentPrefix(init, n);
      assert init[..n] == lines[..n] && init[n] == lines[n];
      PrefixParts(Sent(init), lines[last] + [CR, LF], |Sent(lines[..n])|, |lines[n]|);
    } else {
      assert lines[..n] == init;
    }
  }

  lemma PrefixParts(a: seq<char>, b: seq<char>, o: nat, len: nat)
    requires o + len + 2 <= |a|
    ensures (a + b)[..o] == a[..o] && (a + b)[o..o + len] == a[o..o + len]
    ensures (a + b)[o + len] == a[o + len] && (a + b)[o + len + 1] == a[o + len + 1]
  {
  }

  /** A complete line at offset `o` of the raw bytes. */
  ghost predicate LineAt(raw: seq<char>, o: nat, l: seq<char>) {
    && o + |l| + 2 <= |raw| && NoBreak(raw, o, o + |l|)
    && raw[o..o + |l|] == l && raw[o + |l|] == CR && raw[o + |l| + 1] == LF
  }

  lemma LineOf(raw: seq<char>, lines: seq<seq<char>>, k: nat, n: nat)
    requires CutTo(raw, lines, k) && n < |lines|
    ensures LineAt(raw, |Sent(lines[..n])|, lines[n])
  {
    SentPrefix(lines, n);
    var o, l, all := |Sent(lines[..n])|, lines[n], |Sent(lines)|;
    assert raw[..all] == Sent(lines);
    assert raw[o..o + |l|] == raw[..all][o..o + |l|];
    assert forall i :: o <= i < o + |l| ==> raw[i] == raw[o..o + |l|][i - o];
  }

  /** The first line break after `o` fixes the line. */
  lemma SameLine(raw: seq<char>, o: nat, a: seq<char>, b: seq<char>)
    requires LineAt(raw, o, a) && LineAt(raw, o, b)
    ensures a == b
  {
    assert |a| == |b|;
  }

  lemma {:induction false} SameLines(raw: seq<char>, a: seq<seq<char>>, k: nat, b: seq<seq<char>>, k': nat, n: nat)
    requires CutTo(raw, a, k) && CutTo(raw, b, k') && n <= |a| && n <= |b|
    ensures a[..n] == b[..n]
  {
    if n > 0 {
      SameLines(raw, a, k, b, k', n - 1);
      LineOf(raw, a, k, n - 1);
      LineOf(raw, b, k', n - 1);
      SameLine(raw, |Sent(a[..n - 1])|, a[n - 1], b[n - 1]);
      assert a[..n] == a[..n - 1] + [a[n - 1]] && b[..n] == b[..n - 1] + [b[n - 1]];
    }
  }

  /** A reading that stops at an offset where a complete line begins is no reading. */
  lemma NoMoreLines(raw: seq<char>, o: nat, k: nat, l: seq<char>)
    requires o <= k && NoBreak(raw, o, k) && LineAt(raw, o, l)
    ensures !OpenAt(raw, k) && !BadAt(raw, k)
  {
    assert IsBreak(raw[o + |l|]);
  }

  lemma ReadingNotLonger(raw: seq<char>, a: seq<seq<char>>, k: nat, s: LineStatus, b: seq<seq<char>>, k': nat, s': LineStatus)
    requires Reading(raw, a, k, s) && Reading(raw, b, k', s')
    ensures |b| <= |a|
  {
    if |a| < |b| {
      SameLines(raw, a, k, b, k', |a|);
      LineOf(raw, b, k', |a|);
      assert b[..|a|] == a;
      NoMoreLines(raw, |Sent(a)|, k, b[|a|]);
    }
  }

  /** The bytes received fix the lines, the stopping point and the verdict. */
  lemma ReadingUnique(raw: seq<char>, a: seq<seq<char>>, k: nat, s: LineStatus, b: seq<seq<char>>, k': nat, s': LineStatus)
    requires Reading(raw, a, k, s) && Reading(raw, b, k', s')
    ensures a == b && k == k' && s == s'
  {
    ReadingNotLonger(raw, a, k, s, b, k', s');
    ReadingNotLonger(raw, b, k', s', a, k, s);
    SameLines(raw, a, k, b, k', |a|);
    assert a == a[..|a|] && b == b[..|b|];
    SameStop(raw, |Sent(a)|, k, k');
    SameStop(raw, |Sent(a)|, k', k);
  }

  lemma SameStop(raw: seq<char>, o: nat, k: nat, k': nat)
    requires o <= k && NoBreak(raw, o, k') && (OpenAt(raw, k) || BadAt(raw, k))
    ensures k' <= k
  {
  }

  /** More bytes never turn a bad line into a good one. */
  lemma BadIsSticky(raw: seq<char>, lines: seq<seq<char>>, k: nat, more: seq<char>)
    requires Reading(raw, lines, k, LineBad)
    ensures Reading(raw + more, lines, k, LineBad)
  {
    MoreBytes(raw, lines, k, more);
  }

  lemma MoreBytes(raw: seq<char>, lines: seq<seq<char>>, k: nat, more: seq<char>)
    requires CutTo(raw, lines, k)
    ensures CutTo(raw + more, lines, k)
  {
    var o := |Sent(lines)|;
    assert (raw + more)[..o] == raw[..o];
  }

  // ---------- What counts as the end of a line ----------

  lemma CutNothing(l: seq<char>, rest: seq<char>)
    requires forall i :: 0 <= i < |l| ==> l[i] != '\r' && l[i] != '\n'
    ensures CutTo(l + rest, [], |l|)
  {
    assert Sent([]) == [];
  }

  /** A line ends with a carriage return and a line feed, in this order, and is left with two NULs. */
  lemma LineEnds(l: seq<char>)
    requires forall i :: 0 <= i < |l| ==> l[i] != '\r' && l[i] != '\n'
    ensures Reading(l + "\r\n", [l], |l| + 2, LineOpen) && Cleared([l]) == l + "\0\0"
  {
    assert Sent([]) == [] && Cleared([]) == [];
    assert [l][..0] == [];
    assert Sent([l]) == l + [CR, LF] == l + "\r\n";
    assert Cleared([l]) == l + [NUL, NUL];
  }

  /** A line feed alone is bad, a carriage return before anything else is bad, and at the end it waits. */
  lemma LineEndsOtherwise(l: seq<char>, rest: seq<char>, c: char)
    requires forall i :: 0 <= i < |l| ==> l[i] != '\r' && l[i] != '\n'
    ensures Reading(l + ("\n" + rest), [], |l|, LineBad)
    ensures c != '\n' ==> Reading(l + ("\r" + ([c] + rest)), [], |l|, LineBad)
    ensures Reading(l + "\r", [], |l|, LineOpen) && Reading(l, [], |l|, LineOpen)
  {
    CutNothing(l, "\n" + rest);
    CutNothing(l, "\r" + ([c] + rest));
    CutNothing(l, "\r");
    CutNothing(l, []);
    assert l + [] == l;
  }

  // ---------- The scanner ----------

  class HttpConn {
    const buf: array<char>      // m_read_buf
    var readIdx: nat            // m_read_idx
    var checkedIdx: nat         // m_checked_idx
    var startLine: nat          // m_start_line
    /** The bytes received, unaltered. */
    ghost var raw: seq<char>
    /** The lines taken so far. */
    ghost var lines: seq<seq<char>>

    /** What the scanner relies on; the lines it has handed out may since have been edited. */
    ghost predicate Valid()
      reads this, buf
    {
      && readIdx == |raw| <= buf.Length
      && CutTo(raw, lines, checkedIdx)
      && startLine == |Sent(lines)| == |Cleared(lines)|
      && (forall i :: startLine <= i < readIdx ==> buf[i] == raw[i])
      && (startLine > 0 ==> buf[startLine - 1] != CR)
    }

    /** From offset `o` on, the lines handed out are as the scanner left them. */
    ghost predicate Untouched(o: nat)
      reads this, buf
      requires Valid()
    {
      forall i :: o <= i < startLine ==> buf[i] == Cleared(lines)[i]
    }

    /** init(). */
    constructor (size: nat)
      ensures Valid() && Untouched(0) && raw == [] && lines == [] && buf.Length == size && fresh(buf)
      ensures forall i :: 0 <= i < size ==> buf[i] == NUL
    {
      buf := new char[size](_ => NUL);
      readIdx, checkedIdx, startLine := 0, 0, 0;
      raw, lines := [], [];
    }

    /** What was received and the lines taken fix the buffer, if nothing was edited. */
    lemma WholeBuffer()
      requires Valid() && Untouched(0)
      ensures buf[..readIdx] == Cleared(lines) + raw[startLine..]
    {
    }

    /**
     parse_line(). The branch for an LF whose CR lies before the scanning position is never
     taken: the scanner does not move past a CR that it has not paired.
     */
    method ParseLine() returns (status: LineStatus)
      requires Valid()
      modifies buf, this`checkedIdx
      ensures old(checkedIdx) <= checkedIdx <= readIdx
      ensures forall i :: checkedIdx <= i < buf.Length ==> buf[i] == old(buf[i])
      ensures status != LineOk ==> Valid() && buf[..] == old(buf[..]) && Reading(raw, lines, checkedIdx, status)
      ensures status == LineOk ==>
        && old(checkedIdx) + 2 <= checkedIdx
        && NoBreak(raw, startLine, checkedIdx - 2) && raw[checkedIdx - 2] == CR && raw[checkedIdx - 1] == LF
        && buf[checkedIdx - 2] == NUL && buf[checkedIdx - 1] == NUL
        && forall i :: 0 <= i < checkedIdx - 2 ==> buf[i] == old(buf[i])
    {
      while checkedIdx < readIdx
        invariant old(checkedIdx) <= checkedIdx <= readIdx
        invariant Valid() && buf[..] == old(buf[..])
      {
        var temp := buf[checkedIdx];
        if temp == CR {
          if checkedIdx + 1 == readIdx {
            return LineOpen;
          }
          if buf[checkedIdx + 1] == LF {
            buf[checkedIdx] := NUL;
            checkedIdx := checkedIdx + 1;
            buf[checkedIdx] := NUL;
            checkedIdx := checkedIdx + 1;
            return LineOk;
          } else {
            return LineBad;
          }
        } else if temp == LF {
          if checkedIdx > 1 && buf[checkedIdx - 1] == CR {
            assert false;
          } else {
            return LineBad;
          }
        }
        checkedIdx := checkedIdx + 1;
      }
      return LineOpen;
    }

    /** The line from `text` up to the CR LF before the scanning position. */
    ghost function LineFrom(text: nat): seq<char>
      reads this
    {
      if text + 2 <= checkedIdx <= |raw| then raw[text..checkedIdx - 2] else []
    }

    /** The line just taken starts at `text`, and is in the buffer with two NULs. */
    ghost predicate Taken(text: nat)
      reads this, buf
    {
      && text + 2 <= checkedIdx == startLine <= buf.Length
      && LineAt(raw, text, LineFrom(text)) && text + |LineFrom(text)| + 2 == startLine
      && buf[text..startLine] == LineFrom(text) + [NUL, NUL]
    }

    /** A round of the reading loop: parse_line(), then get_line() and the move of m_start_line. */
    method NextLine(ghost o: nat) returns (status: LineStatus, text: nat)
      requires Valid() && Untouched(o)
      modifies buf, this`checkedIdx, this`startLine, this`lines
      ensures Valid() && Untouched(o)
      ensures forall i :: checkedIdx <= i < buf.Length || 0 <= i < old(startLine) ==> buf[i] == old(buf[i])
      ensures startLine >= old(startLine)
      ensures status == LineOk ==>
        text == old(startLine) && Taken(text) && lines == old(lines) + [LineFrom(text)]
      ensures status != LineOk ==>
        && lines == old(lines) && buf[..] == old(buf[..]) && Reading(raw, lines, checkedIdx, status)
      ensures checkedIdx >= old(checkedIdx) && (status == LineOk ==> checkedIdx > old(checkedIdx))
    {
      status := ParseLine();
      text := startLine;
      if status == LineOk {
        GetLine(o);
      }
    }

    /** get_line() and the move of m_start_line, after parse_line() ended a line. */
    method GetLine(ghost o: nat)
      requires Scanned() && startLine + 2 <= checkedIdx <= readIdx
      requires NoBreak(raw, startLine, checkedIdx - 2) && raw[checkedIdx - 2] == CR && raw[checkedIdx - 1] == LF
      requires buf[checkedIdx - 2] == NUL && buf[checkedIdx - 1] == NUL
      requires forall i :: startLine <= i < checkedIdx - 2 || checkedIdx <= i < readIdx ==> buf[i] == raw[i]
      requires forall i :: o <= i < startLine ==> buf[i] == Cleared(lines)[i]
      modifies this`startLine, this`lines
      ensures Valid() && Untouched(o)
      ensures Taken(old(startLine)) && lines == old(lines) + [LineFrom(old(startLine))]
    {
      ghost var l := raw[startLine..checkedIdx - 2];
      TakenLine(checkedIdx);
      LineEnded(buf[..], Cleared(lines), l, o);
      startLine := checkedIdx;
      lines := lines + [l];
    }

    ghost predicate Scanned()
      reads this
    {
      && readIdx == |raw| <= buf.Length && AllUnbroken(lines)
      && startLine == |Sent(lines)| == |Cleared(lines)| <= readIdx && raw[..startLine] == Sent(lines)
    }

    /** The line that parse_line() has just ended joins the lines taken so far. */
    lemma TakenLine(k: nat)
      requires startLine + 2 <= k <= |raw| && AllUnbroken(lines)
      requires startLine == |Sent(lines)| == |Cleared(lines)| && raw[..startLine] == Sent(lines)
      requires NoBreak(raw, startLine, k - 2) && raw[k - 2] == CR && raw[k - 1] == LF
      ensures var l := raw[startLine..k - 2];
        && CutTo(raw, lines + [l], k) && |Sent(lines + [l])| == |Cleared(lines + [l])| == k
        && Cleared(lines + [l]) == Cleared(lines) + (l + [NUL, NUL])
    {
      var l := raw[startLine..k - 2];
      assert (lines + [l])[..|lines|] == lines;
      assert Sent(lines + [l]) == Sent(lines) + (l + [CR, LF]);
      assert raw[..k] == raw[..startLine] + (l + [CR, LF]);
    }

    /** The lines before and line `l` with its NULs make up the beginning of the buffer. */
    static lemma LineEnded(b: seq<char>, before: seq<char>, l: seq<char>, o: nat)
      requires |before| + |l| + 2 <= |b|
      requires b[|before| + |l|] == NUL && b[|before| + |l| + 1] == NUL
      requires forall i :: o <= i < |before| ==> b[i] == before[i]
      requires forall i :: 0 <= i < |l| ==> b[|before| + i] == l[i]
      ensures b[|before|..|before| + |l| + 2] == l + [NUL, NUL]
      ensures forall i :: o <= i < |before| + |l| + 2 ==> b[i] == (before + (l + [NUL, NUL]))[i]
    {
    }

    /** read_once() when `bytes` arrive and there is room for them. */
    method Receive(bytes: seq<char>, ghost o: nat)
      requires Valid() && Untouched(o) && readIdx + |bytes| <= buf.Length
      modifies buf, this`readIdx, this`raw
      ensures Valid() && Untouched(o)
      ensures raw == old(raw) + bytes && lines == old(lines) && checkedIdx == old(checkedIdx)
    {
      var i := 0;
      while i < |bytes|
        modifies buf
        invariant 0 <= i <= |bytes|
        invariant forall k :: 0 <= k < readIdx ==> buf[k] == old(buf[k])
        invariant forall k :: 0 <= k < i ==> buf[readIdx + k] == bytes[k]
      {
        buf[readIdx + i] := bytes[i];
        i := i + 1;
      }
      MoreBytes(raw, lines, checkedIdx, bytes);
      readIdx := readIdx + |bytes|;
      raw := raw + bytes;
    }

    /** The reading loop, which takes lines until parse_line() asks for more bytes or gives up. */
    method Drain(ghost o: nat) returns (status: LineStatus)
      requires Valid() && Untouched(o)
      modifies buf, this`checkedIdx, this`startLine, this`lines
      ensures Valid() && Untouched(o) && Reading(raw, lines, checkedIdx, status)
      ensures old(lines) <= lines && forall i :: 0 <= i < old(startLine) ==> buf[i] == old(buf[i])
    {
      var text;
      status, text := NextLine(o);
      while status == LineOk
        invariant Valid() && Untouched(o) && old(lines) <= lines
        invariant startLine >= old(startLine) && forall i :: 0 <= i < old(startLine) ==> buf[i] == old(buf[i])
        invariant status != LineOk ==> Reading(raw, lines, checkedIdx, status)
        decreases readIdx - checkedIdx, status == LineOk
      {
        status, text := NextLine(o);
      }
    }

    /** One arrival, and then the reading loop. */
    method Arrive(bytes: seq<char>, ghost o: nat) returns (status: LineStatus)
      requires Valid() && Untouched(o) && readIdx + |bytes| <= buf.Length
      modifies this, buf
      ensures Valid() && Untouched(o) && raw == old(raw) + bytes && Reading(raw, lines, checkedIdx, status)
    {
      Receive(bytes, o);
      status := Drain(o);
    }

    /** Any number of arrivals, with the reading loop after each. */
    method Feed(chunks: seq<seq<char>>, ghost o: nat) returns (status: LineStatus)
      requires Valid() && Untouched(o) && readIdx + |Concat(chunks)| <= buf.Length
      modifies this, buf
      ensures Valid() && Untouched(o) && raw == old(raw) + Concat(chunks) && Reading(raw, lines, checkedIdx, status)
    {
      status := Drain(o);
      var i := 0;
      ghost var raw0, fed := raw, [];
      assert chunks[..0] == [];
      while i < |chunks|
        invariant 0 <= i <= |chunks| && Valid() && Untouched(o) && Reading(raw, lines, checkedIdx, status)
        invariant fed == Concat(chunks[..i]) && raw == raw0 + fed
      {
        ConcatPrefix(chunks, i);
        status := Arrive(chunks[i], o);
        fed := fed + chunks[i];
        i := i + 1;
      }
      assert chunks[..i] == chunks;
    }
  }

  ghost function Concat(chunks: seq<seq<char>>): seq<char> {
    if chunks == [] then [] else Concat(chunks[..|chunks| - 1]) + chunks[|chunks| - 1]
  }

  lemma {:induction false} ConcatPrefix(chunks: seq<seq<char>>, i: nat)
    requires i < |chunks|
    ensures Concat(chunks[..i + 1]) == Concat(chunks[..i]) + chunks[i]
    ensures |Concat(chunks[..i + 1])| <= |Concat(chunks)|
    decreases |chunks| - i
  {
    assert chunks[..i + 1][..i] == chunks[..i];
    if i + 1 < |chunks| {
      ConcatPrefix(chunks, i + 1);
    } else {
      assert chunks[..i + 1] == chunks;
    }
  }

  /**
   However the same bytes are split into arrivals, the scanner ends with the same lines, the
   same position, the same verdict and the same buffer.
   */
  method TwoChunkings(a: HttpConn, b: HttpConn, chunksA: seq<seq<char>>, chunksB: seq<seq<char>>) returns (sa: LineStatus, sb: LineStatus)
    requires a.Valid() && b.Valid() && a.raw == b.raw == [] && a != b && a.buf != b.buf
    requires a.Untouched(0) && b.Untouched(0)
    requires Concat(chunksA) == Concat(chunksB) && |Concat(chunksA)| <= a.buf.Length && |Concat(chunksB)| <= b.buf.Length
    modifies a, b, a.buf, b.buf
    ensures a.Valid() && b.Valid() && sa == sb && a.lines == b.lines && a.checkedIdx == b.checkedIdx && a.readIdx == b.readIdx
    ensures a.buf[..a.readIdx] == b.buf[..b.readIdx]
  {
    sa := a.Feed(chunksA, 0);
    sb := b.Feed(chunksB, 0);
    ReadingUnique(a.raw, a.lines, a.checkedIdx, sa, b.lines, b.checkedIdx, sb);
    a.WholeBuffer();
    b.WholeBuffer();
  }
}
