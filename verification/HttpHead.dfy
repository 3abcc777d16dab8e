/** Reading the head of an HTTP response: getLine, which fills a fixed buffer and steps
    back over carriage returns, the status line and the header loop on top of it.

    A char stands for one byte.  Tcp::readchar returns a plain `char` widened to int, so
    where char is signed the byte 0xFF reads like the end of the stream.
 */
module HttpHead {
  import opened Words

  const BUFFER_SIZE := 301
  const LINE_SIZE := 300

  // ----- one line -----

  /** The text of a line, what is left of the stream, and whether the line was ended (by
      a line feed or the end of the stream) rather than cut because the buffer was full. */
  datatype Line = Line(text: string, rest: string, ended: bool)
  {
    /** The value getLine returns. */
    function Returned(): int {
      if ended then |text| else |text| - 1
    }
  }

  predicate EndsStream(c: char, signed: bool) {
    signed && c as int == 255
  }

  /** At most `room` characters up to a line feed, without carriage returns. */
  function Scan(s: string, room: nat, signed: bool): (l: Line)
    ensures |l.text| <= room && |l.rest| <= |s|
    ensures s != "" && room > 0 ==> |l.rest| < |s|
  {
    if room == 0 then Line("", s, false)
    else if s == "" then Line("", "", true)
    else if s[0] == '\r' then Scan(s[1..], room, signed)
    else if s[0] == '\n' || EndsStream(s[0], signed) then Line("", s[1..], true)
    else
      var l := Scan(s[1..], room - 1, signed);
      l.(text := [s[0]] + l.text)
  }

  function DeleteCr(s: string): (t: string)
    ensures |t| <= |s|
  {
    if s == "" then "" else if s[0] == '\r' then DeleteCr(s[1..]) else [s[0]] + DeleteCr(s[1..])
  }

  /** A line is the stream up to the first line feed with carriage returns deleted, if that
      leaves room for the line feed. */
  lemma {:induction false} ScanDeletesCr(s: string, k: nat, room: nat, signed: bool)
    requires k < |s| && s[k] == '\n' && |DeleteCr(s[..k])| < room
    requires forall i :: 0 <= i < k ==> s[i] != '\n' && !EndsStream(s[i], signed)
    ensures Scan(s, room, signed) == Line(DeleteCr(s[..k]), s[k + 1..], true)
  {
    if k > 0 {
      assert s[..k][1..] == s[1..][..k - 1];
      assert s[1..][k - 1 + 1..] == s[k + 1..];
      ScanDeletesCr(s[1..], k - 1, if s[0] == '\r' then room else room - 1, signed);
    }
  }

  /** No control characters that the parser gives a meaning to, and not 0xFF. */
  predicate Clean(t: string) {
    forall i :: 0 <= i < |t| ==> t[i] != '\r' && t[i] != '\n' && 0 < t[i] as int < 255
  }

  lemma {:induction false} CleanHasNoCr(t: string)
    requires '\r' !in t
    ensures DeleteCr(t) == t && DeleteCr(t + "\r") == t
  {
    if t == "" {
      assert "" + "\r" == "\r" && "\r"[1..] == "";
    } else {
      CleanHasNoCr(t[1..]);
      assert (t + "\r")[1..] == t[1..] + "\r";
    }
  }

  /** A clean text ended by CR LF is read back exactly when it leaves room for the end. */
  lemma LineReadBack(t: string, rest: string, room: nat, signed: bool)
    requires Clean(t) && room > 0
    ensures Scan(t + "\r\n" + rest, room, signed) == Line(t, rest, true) <==> |t| < room
  {
    var s := t + "\r\n" + rest;
    if |t| < room {
      var k := |t| + 1;
      assert s[..k] == t + "\r" && s[k + 1..] == rest;
      assert forall i :: 0 <= i < k ==> s[i] == (t + "\r")[i];
      CleanHasNoCr(t);
      ScanDeletesCr(s, k, room, signed);
    } else {
      assert s == t + ("\r\n" + rest);
      FullLine(t, "\r\n" + rest, room, signed);
    }
  }

  lemma {:induction false} FullLine(t: string, rest: string, room: nat, signed: bool)
    requires Clean(t) && room <= |t|
    ensures Scan(t + rest, room, signed) == Line(t[..room], t[room..] + rest, false)
  {
    if room > 0 {
      assert (t + rest)[1..] == t[1..] + rest;
      FullLine(t[1..], rest, room - 1, signed);
      assert t[..room] == [t[0]] + t[1..][..room - 1];
    }
  }

  // ----- the head -----

  /** The C string at the start of a buffer. */
  function CString(s: string): (t: string)
    ensures t <= s && '\0' !in t && (|t| < |s| ==> s[|t|] == '\0')
  {
    UpTo(s, '\0')
  }

  /** strchr, as an index. */
  function Find(s: string, c: char): (r: Option<nat>)
    ensures r.Some? ==> r.value < |s| && s[r.value] == c && c !in s[..r.value]
    ensures r.None? ==> c !in s
  {
    if s == "" then None
    else if s[0] == c then Some(0)
    else match Find(s[1..], c) { case None => None case Some(i) => Some(i + 1) }
  }

  function HeaderValue(line: string, colon: nat): string
    requires colon < |line|
  {
    if colon + 1 < |line| && line[colon + 1] == ' ' then line[colon + 2..] else line[colon + 1..]
  }

  /** NullPointer is what a non-empty header line without a colon leads to. */
  datatype Headers = Headers(fields: map<string, string>, rest: string) | NullPointer

  /** The header loop.  The name is cut off in place before the loop condition looks at the
      buffer again, so an empty name ends the head like a blank line does. */
  function ReadHeaders(s: string, acc: map<string, string>, signed: bool): Headers
    decreases |s|
  {
    var l := Scan(s, LINE_SIZE - 1, signed);
    var line := CString(l.text);
    if l.Returned() > 0 && line != "" then
      match Find(line, ':')
      case None => NullPointer
      case Some(colon) =>
        var acc' := acc[line[..colon] := HeaderValue(line, colon)];
        if colon > 0 then ReadHeaders(l.rest, acc', signed) else Headers(acc', l.rest)
    else Headers(acc, l.rest)
  }

  predicate IsSpace(c: char) {
    c == ' ' || 9 <= c as int <= 13
  }

  predicate IsDigit(c: char) {
    '0' <= c <= '9'
  }

  function DigitValue(c: char): nat
    requires IsDigit(c)
  {
    c as int - '0' as int
  }

  function Digits(s: string, acc: nat): nat
    decreases |s|
  {
    if s == "" || !IsDigit(s[0]) then acc else Digits(s[1..], 10 * acc + DigitValue(s[0]))
  }

  function Atoi(s: string): int
    decreases |s|
  {
    if s != "" && IsSpace(s[0]) then Atoi(s[1..])
    else if s != "" && s[0] == '-' then var d: int := Digits(s[1..], 0); -d
    else if s != "" && s[0] == '+' then Digits(s[1..], 0)
    else Digits(s, 0)
  }

  /** The three characters from column 9 of the (zero-padded) status line, as a number. */
  function ResponseCode(line: string): Word16 {
    Atoi(CString((line + seq(12, _ => '\0'))[9..12])) % TWO_16
  }

  datatype Head = Malformed | Crash | Head(code: Word16, headers: map<string, string>, body: string)

  function ReadHead(s: string, signed: bool): Head {
    var l := Scan(s, LINE_SIZE - 1, signed);
    if "HTTP/1." <= l.text then
      match ReadHeaders(l.rest, map[], signed)
      case NullPointer => Crash
      case Headers(m, rest) => Head(ResponseCode(l.text), m, rest)
    else Malformed
  }

  // ----- the round trip -----

  datatype Header = Header(name: string, value: string)
  {
    function Text(): string { name + ": " + value }

    predicate WellFormed() {
      Clean(name) && Clean(value) && ':' !in name
    }

    predicate Printable() {
      WellFormed() && name != "" && |Text()| <= 298
    }
  }

  function PrintHeaders(hs: seq<Header>): string {
    if hs == [] then "" else hs[0].Text() + "\r\n" + PrintHeaders(hs[1..])
  }

  /** The headers as a map in which later ones replace earlier ones. */
  function LastWins(hs: seq<Header>, acc: map<string, string>): map<string, string>
    decreases |hs|
  {
    if hs == [] then acc else LastWins(hs[1..], acc[hs[0].name := hs[0].value])
  }

  function CodeText(code: nat): string
    requires code < 1000
  {
    [DigitChar(code / 100), DigitChar(code / 10 % 10), DigitChar(code % 10)]
  }

  function DigitChar(d: nat): (c: char)
    requires d < 10
    ensures IsDigit(c) && DigitValue(c) == d && Clean([c])
  {
    ('0' as int + d) as char
  }

  function StatusLine(minor: char, code: nat, reason: string): string
    requires code < 1000
  {
    "HTTP/1." + [minor, ' '] + CodeText(code) + " " + reason
  }

  lemma CleanConcat(s: string, t: string)
    requires Clean(s) && Clean(t)
    ensures Clean(s + t)
  {
  }

  lemma StatusLineClean(minor: char, code: nat, reason: string)
    requires code < 1000 && Clean([minor]) && Clean(reason)
    ensures Clean(StatusLine(minor, code, reason))
  {
    assert Clean("HTTP/1.") && Clean(" ") && Clean([minor, ' ']) && Clean(CodeText(code)) by {
      assert [minor][0] == minor;
      CleanConcat([DigitChar(code / 100)], [DigitChar(code / 10 % 10)]);
      CleanConcat([DigitChar(code / 100)] + [DigitChar(code / 10 % 10)], [DigitChar(code % 10)]);
      assert CodeText(code) == [DigitChar(code / 100)] + [DigitChar(code / 10 % 10)] + [DigitChar(code % 10)];
    }
    hide *;
    CleanConcat("HTTP/1.", [minor, ' ']);
    CleanConcat("HTTP/1." + [minor, ' '], CodeText(code));
    CleanConcat("HTTP/1." + [minor, ' '] + CodeText(code), " ");
    CleanConcat("HTTP/1." + [minor, ' '] + CodeText(code) + " ", reason);
    StatusLineParts(minor, code, reason);
  }

  lemma StatusLineParts(minor: char, code: nat, reason: string)
    requires code < 1000
    ensures StatusLine(minor, code, reason) == "HTTP/1." + [minor, ' '] + CodeText(code) + " " + reason
  {
  }

  lemma CodeDigits(code: nat)
    requires code < 1000
    ensures Clean(CodeText(code)) && Atoi(CodeText(code)) == code
  {
    var a, b, c := code / 100, code / 10 % 10, code % 10;
    var t := CodeText(code);
    assert t[1..] == [DigitChar(b), DigitChar(c)] && t[1..][1..] == [DigitChar(c)] && t[1..][1..][1..] == "";
    assert Clean(t) && Atoi(t) == Digits(t, 0);
    assert 10 * (10 * (10 * 0 + a) + b) + c == code;
    hide CodeText, Atoi, Clean, Digits, DigitChar;
    DigitsStep(t, 0);
    DigitsStep(t[1..], a);
    DigitsStep(t[1..][1..], 10 * a + b);
    DigitsStep("", code);
  }

  lemma DigitsStep(s: string, acc: nat)
    ensures s == "" ==> Digits(s, acc) == acc
    ensures s != "" && IsDigit(s[0]) ==> Digits(s, acc) == Digits(s[1..], 10 * acc + DigitValue(s[0]))
  {
  }

  lemma CodeReadBack(minor: char, code: nat, reason: string)
    requires code < 1000
    ensures "HTTP/1." <= StatusLine(minor, code, reason)
    ensures ResponseCode(StatusLine(minor, code, reason)) == code
  {
    var line := StatusLine(minor, code, reason);
    var t := CodeText(code);
    assert (line + seq(12, _ => '\0'))[9..12] == t;
    CodeDigits(code);
    CleanIsCString(t);
    hide CodeText, Atoi, CString, Clean;
  }

  /** What else can stand in the first column of the code: blanks and a plus sign are skipped, a minus
      sign is taken (and wraps in the sixteen bits of the code), anything but a digit gives zero. */
  lemma OtherCodes(line: string, c: char, e: nat, f: nat)
    requires |line| >= 12 && e < 10 && f < 10 && line[9..12] == [c, DigitChar(e), DigitChar(f)]
    requires c < '0' || c > '9'
    ensures ResponseCode(line) ==
              if c == '-' then (65536 - 10 * e - f) % 65536
              else if c == '+' || c == ' ' || 9 <= c as int <= 13 then 10 * e + f
              else 0
  {
    var t := [c, DigitChar(e), DigitChar(f)];
    assert (line + seq(12, _ => '\0'))[9..12] == line[9..12];
    assert t[1..] == [DigitChar(e), DigitChar(f)] && t[1..][1..] == [DigitChar(f)] && t[1..][1..][1..] == "";
    if c == '\0' {
      UpToIs(t, "", '\0');
    } else {
      assert t[1] == DigitChar(e) && t[2] == DigitChar(f);
      UpToIs(t, t, '\0');
    }
    assert Digits(t[1..], 0) == 10 * e + f by {
      DigitsStep(t[1..], 0);
      DigitsStep(t[1..][1..], e);
      DigitsStep("", 10 * e + f);
      hide Digits;
    }
    assert t[1..][0] == DigitChar(e) && Atoi(t[1..]) == Digits(t[1..], 0);
    assert Atoi("") == Digits("", 0) == 0;
    assert !IsDigit(c) && Digits(t, 0) == 0;
    var v := Atoi(CString(t));
    assert v == if c == '-' then -(10 * e + f) else if c == '+' || IsSpace(c) then 10 * e + f else 0 by {
      hide DigitChar, CString, Digits;
    }
    hide *;
    assert (0 - (10 * e + f)) % 65536 == (65536 - 10 * e - f) % 65536;
  }

  lemma CleanIsCString(t: string)
    requires Clean(t)
    ensures CString(t) == t
  {
    UpToIs(t, t, '\0');
  }

  lemma {:induction false} FindFirst(s: string, c: char, k: nat)
    requires k < |s| && s[k] == c && forall i :: 0 <= i < k ==> s[i] != c
    ensures Find(s, c) == Some(k)
  {
    if k > 0 { FindFirst(s[1..], c, k - 1); }
  }

  lemma HeaderReadBack(h: Header)
    requires h.WellFormed()
    ensures Clean(h.Text()) && CString(h.Text()) == h.Text() && Find(h.Text(), ':') == Some(|h.name|)
    ensures h.Text()[..|h.name|] == h.name && HeaderValue(h.Text(), |h.name|) == h.value
  {
    var t := h.Text();
    assert Clean(": ");
    CleanConcat(h.name, ": ");
    CleanConcat(h.name + ": ", h.value);
    CleanIsCString(t);
    assert forall i :: 0 <= i < |h.name| ==> t[i] == h.name[i];
    FindFirst(t, ':', |h.name|);
  }

  lemma {:induction false} HeadersReadBack(hs: seq<Header>, body: string, acc: map<string, string>, signed: bool)
    requires forall h :: h in hs ==> h.Printable()
    ensures ReadHeaders(PrintHeaders(hs) + "\r\n" + body, acc, signed) == Headers(LastWins(hs, acc), body)
    decreases |hs|
  {
    if hs == [] {
      assert PrintHeaders(hs) + "\r\n" + body == "" + "\r\n" + body;
      LineReadBack("", body, LINE_SIZE - 1, signed);
    } else {
      var h, rest := hs[0], PrintHeaders(hs[1..]) + "\r\n" + body;
      assert h in hs;
      assert PrintHeaders(hs) + "\r\n" + body == h.Text() + "\r\n" + rest;
      HeaderReadBack(h);
      LineReadBack(h.Text(), rest, LINE_SIZE - 1, signed);
      HeadersReadBack(hs[1..], body, acc[h.name := h.value], signed);
      ReadOneHeader(h, h.Text() + "\r\n" + rest, rest, true, acc, signed);
    }
  }

  lemma ReadOneHeader(h: Header, s: string, rest: string, ended: bool, acc: map<string, string>, signed: bool)
    requires h.WellFormed() && |rest| < |s|
    requires Scan(s, LINE_SIZE - 1, signed) == Line(h.Text(), rest, ended)
    ensures var acc' := acc[h.name := h.value];
            ReadHeaders(s, acc, signed) ==
              if h.name != "" then ReadHeaders(rest, acc', signed) else Headers(acc', rest)
  {
    HeaderReadBack(h);
    assert |h.Text()| >= 2;
    hide Scan, CString, Find, HeaderValue, Clean;
  }

  lemma NextHeader(s: string, acc: map<string, string>, l: Line, signed: bool)
    requires l == Scan(s, LINE_SIZE - 1, signed)
    ensures var line := CString(l.text);
            ReadHeaders(s, acc, signed) ==
              if l.Returned() <= 0 || line == "" then Headers(acc, l.rest)
              else match Find(line, ':')
                case None => NullPointer
                case Some(colon) =>
                  var acc' := acc[line[..colon] := HeaderValue(line, colon)];
                  if colon > 0 then ReadHeaders(l.rest, acc', signed) else Headers(acc', l.rest)
    ensures l.Returned() > 0 ==> |l.rest| < |s|
  {
  }

  /** A header without a name ends the head as well. */
  lemma EmptyNameEndsTheHead(h: Header, more: string, acc: map<string, string>, signed: bool)
    requires h.WellFormed() && h.name == "" && |h.Text()| < LINE_SIZE - 1
    ensures ReadHeaders(h.Text() + "\r\n" + more, acc, signed) == Headers(acc["" := h.value], more)
  {
    HeaderReadBack(h);
    LineReadBack(h.Text(), more, LINE_SIZE - 1, signed);
    ReadOneHeader(h, h.Text() + "\r\n" + more, more, true, acc, signed);
  }

  // ----- headers that do not fit -----

  /** What a header line of 299 or more characters does: its first 299 are taken for a header
      with a shortened value, and the rest of it is read as another line.  At 299 exactly that
      rest is the blank line that ends the head. */
  lemma OverlongHeader(h: Header, more: string, acc: map<string, string>, signed: bool)
    requires h.WellFormed() && |h.Text()| >= LINE_SIZE - 1
    ensures var room := LINE_SIZE - 1;
            var rest := h.Text()[room..] + "\r\n" + more;
            ReadHeaders(h.Text() + "\r\n" + more, acc, signed) ==
              if |h.name| >= room then NullPointer
              else
                var acc' := acc[h.name := h.value[..if |h.name| + 2 <= room then room - 2 - |h.name| else 0]];
                if h.name == "" then Headers(acc', rest) else ReadHeaders(rest, acc', signed)
  {
    var t, room := h.Text(), LINE_SIZE - 1;
    HeaderReadBack(h);
    CutHeaderText(h, room);
    hide Header.Text, Find, HeaderValue;
    LineOutcome(t, more, acc, signed);
  }

  lemma CutHeaderText(h: Header, room: nat)
    requires h.WellFormed() && 0 < room <= |h.Text()|
    ensures var f := h.Text()[..room];
            if |h.name| >= room then Find(f, ':') == None
            else
              && Find(f, ':') == Some(|h.name|) && f[..|h.name|] == h.name
              && HeaderValue(f, |h.name|) == h.value[..if |h.name| + 2 <= room then room - 2 - |h.name| else 0]
  {
    var k := |h.name|;
    var f := h.Text()[..room];
    hide Find, Clean;
    if k >= room {
      assert f == h.name[..room];
      NotFound(f, ':');
    } else if k + 2 <= room {
      var cut := h.value[..room - 2 - k];
      assert f == h.name + (": " + cut);
      CutAt(h.name, ": " + cut);
      assert (": " + cut)[1] == ' ' && (": " + cut)[2..] == cut;
    } else {
      assert f == h.name + ":";
      CutAt(h.name, ":");
    }
  }

  lemma CutAt(name: string, tail: string)
    requires ':' !in name && tail != "" && tail[0] == ':'
    ensures var f := name + tail;
            && Find(f, ':') == Some(|name|) && f[..|name|] == name
            && HeaderValue(f, |name|) == if |tail| > 1 && tail[1] == ' ' then tail[2..] else tail[1..]
  {
    var f, k := name + tail, |name|;
    assert forall i :: 0 <= i < k ==> f[i] == name[i];
    FindFirst(f, ':', k);
    assert f[k + 1..] == tail[1..];
    if |tail| > 1 { assert f[k + 1] == tail[1] && f[k + 2..] == tail[2..]; }
  }

  lemma {:induction false} NotFound(s: string, c: char)
    requires c !in s
    ensures Find(s, c) == None
  {
  }

  /** What the header loop does with a clean line of any length, read in pieces of at most 299. */
  lemma LineOutcome(t: string, more: string, acc: map<string, string>, signed: bool)
    requires Clean(t)
    ensures var room := LINE_SIZE - 1;
            var f := if |t| < room then t else t[..room];
            var rest := if |t| < room then more else t[room..] + "\r\n" + more;
            ReadHeaders(t + "\r\n" + more, acc, signed) ==
              if f == "" then Headers(acc, rest)
              else match Find(f, ':')
                case None => NullPointer
                case Some(colon) =>
                  var acc' := acc[f[..colon] := HeaderValue(f, colon)];
                  if colon > 0 then ReadHeaders(rest, acc', signed) else Headers(acc', rest)
  {
    var room := LINE_SIZE - 1;
    var s := t + "\r\n" + more;
    LineReadBack(t, more, room, signed);
    if |t| >= room {
      assert s == t + ("\r\n" + more);
      FullLine(t, "\r\n" + more, room, signed);
      assert t[room..] + ("\r\n" + more) == t[room..] + "\r\n" + more;
    }
    var f := if |t| < room then t else t[..room];
    CleanIsCString(f);
    var l := Scan(s, room, signed);
    NextHeader(s, acc, l, signed);
    hide ReadHeaders, Scan, CString, Find, HeaderValue, Clean;
  }

  /** A clean line either ends the head no later than at its own end, or leads on to what
      follows it with fields that it did not touch or that got a value shorter than itself. */
  lemma {:induction false} LineEffect(t: string, more: string, acc: map<string, string>, signed: bool)
    returns (goesOn: bool, acc': map<string, string>)
    requires Clean(t)
    ensures var r := ReadHeaders(t + "\r\n" + more, acc, signed);
            if goesOn then r == ReadHeaders(more, acc', signed) else r.NullPointer? || |r.rest| >= |more|
    ensures goesOn ==> forall k :: k in acc ==> k in acc' && (acc'[k] == acc[k] || |acc'[k]| + 1 < |t|)
    decreases |t|
  {
    LineOutcome(t, more, acc, signed);
    var room := LINE_SIZE - 1;
    var f := if |t| < room then t else t[..room];
    hide ReadHeaders, Clean;
    goesOn, acc' := false, acc;
    match Find(f, ':') {
      case None =>
      case Some(colon) =>
        acc' := acc[f[..colon] := HeaderValue(f, colon)];
        if colon > 0 {
          goesOn := true;
          if |t| >= room {
            goesOn, acc' := LineEffect(t[room..], more, acc', signed);
          }
        }
    }
  }

  /** A header that is not printable ends the head no later than at its own end, makes the
      parser crash, or leaves a wrong value under its name. */
  lemma UnprintableEffect(h: Header, more: string, acc: map<string, string>, signed: bool)
    returns (goesOn: bool, acc': map<string, string>)
    requires h.WellFormed() && !h.Printable()
    ensures var r := ReadHeaders(h.Text() + "\r\n" + more, acc, signed);
            if goesOn then r == ReadHeaders(more, acc', signed) else r.NullPointer? || |r.rest| >= |more|
    ensures goesOn ==> h.name in acc' && acc'[h.name] != h.value
  {
    var t, room := h.Text(), LINE_SIZE - 1;
    goesOn, acc' := false, acc;
    assert |t| == |h.name| + 2 + |h.value|;
    CleanTail(h, room);
    hide ReadHeaders, Header.Text, Header.WellFormed, Clean;
    if |t| < room {
      EmptyNameEndsTheHead(h, more, acc, signed);
    } else {
      OverlongHeader(h, more, acc, signed);
      if 0 < |h.name| < room {
        var cut := h.value[..if |h.name| + 2 <= room then room - 2 - |h.name| else 0];
        var acc1 := acc[h.name := cut];
        goesOn, acc' := LineEffect(t[room..], more, acc1, signed);
        if |t| == room {
          BlankLine(more, acc1, signed);
          goesOn := false;
        } else if h.value == "" {
          // A name of 298: what is left over is the blank behind its colon.
          NoValueTail(h, room);
          BlankCrashes(more, acc1, signed);
          goesOn := false;
        }
        assert goesOn ==> h.name in acc1 && acc1[h.name] == cut && |cut| < |h.value|;
      }
    }
  }

  lemma CleanTail(h: Header, room: nat)
    requires h.WellFormed()
    ensures room <= |h.Text()| ==> Clean(h.Text()[room..]) && (|h.Text()| == room ==> h.Text()[room..] == "")
  {
    HeaderReadBack(h);
  }

  lemma NoValueTail(h: Header, room: nat)
    requires h.value == "" && |h.Text()| == room + 1
    ensures h.Text()[room..] == " "
  {
  }

  lemma BlankCrashes(more: string, acc: map<string, string>, signed: bool)
    ensures ReadHeaders(" " + "\r\n" + more, acc, signed) == NullPointer
  {
    assert Clean(" ") && ':' !in " ";
    hide Clean, ReadHeaders;
    MissingColonCrashes(" ", more, acc, signed);
  }

  lemma BlankLine(more: string, acc: map<string, string>, signed: bool)
    ensures ReadHeaders("" + "\r\n" + more, acc, signed) == Headers(acc, more)
  {
    LineOutcome("", more, acc, signed);
  }

  /** A header that is not printable is not followed by another one of the same name. */
  ghost predicate Unmasked(hs: seq<Header>) {
    forall i, j :: 0 <= i < j < |hs| && !hs[i].Printable() ==> hs[i].name != hs[j].name
  }

  lemma {:induction false} LastWinsKeeps(hs: seq<Header>, m: map<string, string>, k: string)
    requires k in m && forall i :: 0 <= i < |hs| ==> hs[i].name != k
    ensures var l := LastWins(hs, m); k in l && l[k] == m[k]
    decreases |hs|
  {
    if hs != [] { LastWinsKeeps(hs[1..], m[hs[0].name := hs[0].value], k); }
  }

  lemma {:induction false} UnprintableIsMisread(hs: seq<Header>, body: string, acc: map<string, string>,
                                               want: map<string, string>, signed: bool)
    requires (forall h :: h in hs ==> h.WellFormed()) && Unmasked(hs)
    requires exists h :: h in hs && !h.Printable()
    ensures ReadHeaders(PrintHeaders(hs) + "\r\n" + body, acc, signed) != Headers(LastWins(hs, want), body)
    decreases |hs|
  {
    var h, tail, more := hs[0], hs[1..], PrintHeaders(hs[1..]) + "\r\n" + body;
    assert h in hs && hs == [h] + tail;
    assert PrintHeaders(hs) + "\r\n" + body == h.Text() + "\r\n" + more;
    assert LastWins(hs, want) == LastWins(tail, want[h.name := h.value]);
    hide ReadHeaders, PrintHeaders, LastWins, Header.Text, Header.WellFormed, Header.Printable;
    var goesOn, acc' := true, acc[h.name := h.value];
    if h.Printable() {
      PrintableEffect(h, more, acc, signed);
    } else {
      goesOn, acc' := UnprintableEffect(h, more, acc, signed);
    }
    if goesOn && exists g :: g in tail && !g.Printable() {
      UnprintableIsMisread(tail, body, acc', want[h.name := h.value], signed);
    } else if goesOn {
      HeadersReadBack(tail, body, acc', signed);
      LastWinsKeeps(tail, acc', h.name);
      LastWinsKeeps(tail, want[h.name := h.value], h.name);
    }
  }

  lemma PrintableEffect(h: Header, more: string, acc: map<string, string>, signed: bool)
    requires h.Printable()
    ensures ReadHeaders(h.Text() + "\r\n" + more, acc, signed) == ReadHeaders(more, acc[h.name := h.value], signed)
  {
    HeaderReadBack(h);
    LineReadBack(h.Text(), more, LINE_SIZE - 1, signed);
    ReadOneHeader(h, h.Text() + "\r\n" + more, more, true, acc, signed);
  }

  /** A status line of 299 characters ends the head; what is left of a longer one crashes the
      parser, unless it has a colon. */
  lemma OverlongStatus(line: string, rest: string, signed: bool)
    requires Clean(line) && "HTTP/1." <= line && |line| >= LINE_SIZE - 1 && ':' !in line[LINE_SIZE - 1..]
    ensures var r := ReadHead(line + "\r\n" + rest, signed);
            if |line| == LINE_SIZE - 1 then r.Head? && r.body == rest else r == Crash
  {
    var room := LINE_SIZE - 1;
    var t := line[room..];
    assert line + "\r\n" + rest == line + ("\r\n" + rest);
    FullLine(line, "\r\n" + rest, room, signed);
    assert t + ("\r\n" + rest) == t + "\r\n" + rest;
    assert "HTTP/1." <= line[..room] by { assert line[..room][..7] == line[..7]; }
    var f := if |t| < room then t else t[..room];
    assert Clean(t);
    NotFound(f, ':');
    hide ReadHeaders, Scan, Find, HeaderValue, Clean, ResponseCode;
    LineOutcome(t, rest, map[], signed);
  }

  /** Reading what was printed gives the same code and the last-wins map of the headers, and
      leaves the stream exactly at the body, if and only if the status line and every header fit
      into 298 characters and every header has a name. */
  lemma HeadRoundTrip(minor: char, code: nat, reason: string, hs: seq<Header>, body: string, signed: bool)
    requires code < 1000 && Clean([minor]) && Clean(reason)
    requires (forall h :: h in hs ==> h.WellFormed()) && Unmasked(hs)
    requires var line := StatusLine(minor, code, reason); |line| >= LINE_SIZE - 1 ==> ':' !in line[LINE_SIZE - 1..]
    ensures ReadHead(StatusLine(minor, code, reason) + "\r\n" + PrintHeaders(hs) + "\r\n" + body, signed)
         == Head(code, LastWins(hs, map[]), body)
       <==> |StatusLine(minor, code, reason)| <= 298 && forall h :: h in hs ==> h.Printable()
  {
    var line, rest := StatusLine(minor, code, reason), PrintHeaders(hs) + "\r\n" + body;
    StatusLineClean(minor, code, reason);
    assert line + "\r\n" + PrintHeaders(hs) + "\r\n" + body == line + "\r\n" + rest;
    CodeReadBack(minor, code, reason);
    hide Scan, ReadHeaders, LastWins, StatusLine, PrintHeaders, ResponseCode, Unmasked, Clean;
    hide Header.WellFormed, Header.Printable;
    if |line| >= LINE_SIZE - 1 {
      hide ReadHead;
      OverlongStatus(line, rest, signed);
    } else {
      LineReadBack(line, rest, LINE_SIZE - 1, signed);
      if forall h :: h in hs ==> h.Printable() {
        HeadersReadBack(hs, body, map[], signed);
      } else {
        UnprintableIsMisread(hs, body, map[], map[], signed);
      }
    }
  }

  /** The blank behind the colon is optional, and no more than one is skipped. */
  lemma BlankIsOptional(name: string, value: string, more: string, acc: map<string, string>, signed: bool)
    requires Clean(name) && Clean(value) && name != "" && ':' !in name && |name| + |value| < LINE_SIZE - 2
    ensures ReadHeaders(name + ":" + value + "\r\n" + more, acc, signed)
         == ReadHeaders(more, acc[name := if " " <= value then value[1..] else value], signed)
  {
    var t := name + ":" + value;
    assert Clean(":");
    CleanConcat(name, ":");
    CleanConcat(name + ":", value);
    hide ReadHeaders, Clean, Find, HeaderValue;
    assert t == name + (":" + value);
    CutAt(name, ":" + value);
    SkippedBlank(value);
    LineOutcome(t, more, acc, signed);
  }

  lemma SkippedBlank(value: string)
    ensures var tail := ":" + value;
            (if |tail| > 1 && tail[1] == ' ' then tail[2..] else tail[1..])
              == if " " <= value then value[1..] else value
  {
    assert (":" + value)[1..] == value;
    if value != "" { assert (":" + value)[2..] == value[1..]; }
  }

  /** A NUL in a line hides the rest of it; a line that starts with one ends the head. */
  lemma NulHidesRest(t: string, u: string, more: string, acc: map<string, string>, signed: bool)
    requires Clean(t) && |t| + 1 + |u| < LINE_SIZE - 1
    requires forall i :: 0 <= i < |u| ==> u[i] != '\r' && u[i] != '\n' && u[i] as int != 255
    ensures ReadHeaders(t + "\0" + u + "\r\n" + more, acc, signed) == ReadHeaders(t + "\r\n" + more, acc, signed)
  {
    var w := t + "\0" + u;
    var s := w + "\r\n" + more;
    ScanWithNul(t, u, more, signed);
    NextHeader(s, acc, Line(w, more, true), signed);
    LineReadBack(t, more, LINE_SIZE - 1, signed);
    NextHeader(t + "\r\n" + more, acc, Line(t, more, true), signed);
    CleanIsCString(t);
    hide ReadHeaders, Scan, CString, Clean, Find, HeaderValue;
  }

  lemma ScanWithNul(t: string, u: string, more: string, signed: bool)
    requires Clean(t) && |t| + 1 + |u| < LINE_SIZE - 1
    requires forall i :: 0 <= i < |u| ==> u[i] != '\r' && u[i] != '\n' && u[i] as int != 255
    ensures var w := t + "\0" + u;
            && Scan(w + "\r\n" + more, LINE_SIZE - 1, signed) == Line(w, more, true) && CString(w) == t
  {
    var w := t + "\0" + u;
    var s, k := w + "\r\n" + more, |w| + 1;
    assert s[..k] == w + "\r" && s[k + 1..] == more;
    forall i | 0 <= i < |w| ensures w[i] != '\r' && w[i] != '\n' && w[i] as int != 255 {
      if i > |t| { assert w[i] == u[i - |t| - 1]; }
    }
    assert w[|t|] == '\0' && w[..|t|] == t;
    UpToIs(w, t, '\0');
    hide CString, Clean;
    assert forall i :: 0 <= i < k ==> s[i] == (w + "\r")[i];
    CleanHasNoCr(w);
    ScanDeletesCr(s, k, LINE_SIZE - 1, signed);
  }

  /** When the stream ends in the middle of a head, even in the middle of a line, what has arrived
      counts and nothing is left. */
  lemma {:induction false} TruncatedHead(hs: seq<Header>, last: Header, acc: map<string, string>, signed: bool)
    requires last.Printable() && forall h :: h in hs ==> h.Printable()
    ensures ReadHeaders(PrintHeaders(hs) + last.Text(), acc, signed) == Headers(LastWins(hs + [last], acc), "")
    decreases |hs|
  {
    if hs == [] {
      var t := last.Text();
      assert PrintHeaders([]) + t == t && [] + [last] == [last];
      HeaderReadBack(last);
      ScanToEnd(t, LINE_SIZE - 1, signed);
      ReadOneHeader(last, t, "", true, acc, signed);
      ScanToEnd("", LINE_SIZE - 1, signed);
      NextHeader("", acc[last.name := last.value], Line("", "", true), signed);
      LastWinsOne(last, acc);
    } else {
      var h, more := hs[0], PrintHeaders(hs[1..]) + last.Text();
      assert h in hs && (hs + [last])[1..] == hs[1..] + [last];
      assert PrintHeaders(hs) + last.Text() == h.Text() + "\r\n" + more;
      PrintableEffect(h, more, acc, signed);
      TruncatedHead(hs[1..], last, acc[h.name := h.value], signed);
    }
  }

  lemma {:induction false} ScanToEnd(t: string, room: nat, signed: bool)
    requires Clean(t) && |t| < room
    ensures Scan(t, room, signed) == Line(t, "", true)
  {
    if t != "" { ScanToEnd(t[1..], room - 1, signed); }
  }

  /** A response is malformed exactly if its first line does not start with the protocol's name. */
  lemma MalformedExactly(t: string, more: string, signed: bool)
    requires Clean(t) && |t| < LINE_SIZE - 1
    ensures ReadHead(t + "\r\n" + more, signed) == Malformed <==>
              |t| < 7 || t[..7] != ['H', 'T', 'T', 'P', '/', '1', '.']
  {
    LineReadBack(t, more, LINE_SIZE - 1, signed);
    hide Scan, ReadHeaders, Clean, ResponseCode;
  }

  /** A header that is too long can be masked by a later one of the same name: the piece that
      is left of the long one sets only that name, and the later header sets it again. */
  lemma MaskedHeader(body: string, signed: bool)
    ensures var long := Header("A", seq(296, _ => 'x') + "A:y");
            && long.WellFormed() && !long.Printable()
            && ReadHeaders(PrintHeaders([long, Header("A", "z")]) + "\r\n" + body, map[], signed)
            == Headers(map["A" := "z"], body)
  {
    var long := Header("A", seq(296, _ => 'x') + "A:y");
    LongHeader(long);
    hide *;
    MaskedByLater(long, Header("A", "z"), body, signed);
  }

  lemma MaskedByLater(long: Header, short: Header, body: string, signed: bool)
    requires long.WellFormed() && long.name == "A" && |long.Text()| == 302 && |long.value| == 299
    requires long.Text()[LINE_SIZE - 1..] == "A:y" && short == Header("A", "z")
    ensures ReadHeaders(PrintHeaders([long, short]) + "\r\n" + body, map[], signed) == Headers(map["A" := "z"], body)
  {
    hide ReadHeaders, PrintHeaders, LastWins, Header.Text, Header.WellFormed, Header.Printable;
    var more := PrintHeaders([short]) + "\r\n" + body;
    ShortHeader(short);
    assert [long, short] == [long] + [short];
    FirstPrinted(long, [short], body);
    OverlongHeader(long, more, map[], signed);
    var acc := map["A" := long.value[..296]];
    MaskingPiece(more, acc, signed);
    HeadersReadBack([short], body, acc["A" := "y"], signed);
    LastWinsOne(short, acc["A" := "y"]);
    assert acc["A" := "y"]["A" := "z"] == map["A" := "z"];
  }

  lemma FirstPrinted(h: Header, hs: seq<Header>, body: string)
    ensures PrintHeaders([h] + hs) + "\r\n" + body == h.Text() + "\r\n" + (PrintHeaders(hs) + "\r\n" + body)
  {
    assert ([h] + hs)[1..] == hs;
  }

  lemma ShortHeader(h: Header)
    requires h == Header("A", "z")
    ensures h.Printable()
  {
  }

  lemma LongHeader(h: Header)
    requires h == Header("A", seq(296, _ => 'x') + "A:y")
    ensures h.WellFormed() && !h.Printable() && |h.Text()| == 302 && |h.value| == 299
    ensures h.Text()[LINE_SIZE - 1..] == "A:y"
  {
    var fill := seq(296, _ => 'x');
    assert Clean(fill) && Clean("A:y") && Clean("A");
    CleanConcat(fill, "A:y");
    assert h.Text() == ("A: " + fill) + "A:y";
  }

  lemma MaskingPiece(more: string, acc: map<string, string>, signed: bool)
    ensures ReadHeaders("A:y" + "\r\n" + more, acc, signed) == ReadHeaders(more, acc["A" := "y"], signed)
  {
    assert Clean("A:y");
    assert Find("A:y", ':') == Some(1) by { FindFirst("A:y", ':', 1); }
    assert "A:y"[..1] == "A" && HeaderValue("A:y", 1) == "y";
    hide ReadHeaders, Find, HeaderValue, Clean;
    LineOutcome("A:y", more, acc, signed);
  }

  lemma LastWinsOne(h: Header, m: map<string, string>)
    ensures LastWins([h], m) == m[h.name := h.value]
  {
  }

  /** A header line without a colon makes the code write through a null pointer. */
  lemma MissingColonCrashes(t: string, more: string, acc: map<string, string>, signed: bool)
    requires Clean(t) && 0 < |t| < LINE_SIZE - 1
    ensures ':' !in t ==> ReadHeaders(t + "\r\n" + more, acc, signed) == NullPointer
  {
    LineReadBack(t, more, LINE_SIZE - 1, signed);
    CleanIsCString(t);
    hide Scan, CString, Clean;
  }

  // ----- the imperative parser -----

  /** The receiving side of a connection. */
  class Tcp {
    var rest: string
    const isOpen: bool
    const signedChars: bool

    constructor (rest: string, isOpen: bool, signedChars: bool)
      ensures this.rest == rest && this.isOpen == isOpen && this.signedChars == signedChars
    {
      this.rest := rest;
      this.isOpen := isOpen;
      this.signedChars := signedChars;
    }

    /** One byte as a (possibly signed) char, -1 at the end, 0 without a connection. */
    method ReadChar() returns (c: int)
      modifies this
      ensures !isOpen ==> c == 0 && rest == old(rest)
      ensures isOpen && old(rest) == "" ==> c == -1 && rest == ""
      ensures isOpen && old(rest) != "" ==>
                && rest == old(rest)[1..]
                && c == Widen(old(rest)[0], signedChars)
    {
      if !isOpen {
        return 0;
      }
      if rest == "" {
        return -1;
      }
      c := rest[0] as int;
      if signedChars && c >= 128 { c := c - 256; }
      rest := rest[1..];
    }
  }

  predicate Bytes(s: string) {
    forall i :: 0 <= i < |s| ==> s[i] as int < 256
  }

  function Prepend(t: string, l: Line): Line {
    l.(text := t + l.text)
  }

  lemma PrependToNothing(t: string, rest: string, ended: bool)
    ensures Prepend(t, Line("", rest, ended)) == Line(t, rest, ended)
  {
    assert t + "" == t;
  }

  lemma PrependPrepend(t: string, u: string, l: Line)
    ensures Prepend(t, Prepend(u, l)) == Prepend(t + u, l)
  {
    assert t + (u + l.text) == t + u + l.text;
  }

  lemma ScanStep(s: string, room: nat, signed: bool)
    requires room > 0
    ensures s == "" ==> Scan(s, room, signed) == Line("", "", true)
    ensures s != "" && s[0] == '\r' ==> Scan(s, room, signed) == Scan(s[1..], room, signed)
    ensures s != "" && (s[0] == '\n' || EndsStream(s[0], signed)) ==> Scan(s, room, signed) == Line("", s[1..], true)
    ensures s != "" && s[0] != '\r' && s[0] != '\n' && !EndsStream(s[0], signed) ==>
              Scan(s, room, signed) == Prepend([s[0]], Scan(s[1..], room - 1, signed))
  {
  }

  /** The value readchar returns for a byte. */
  function Widen(c: char, signed: bool): int {
    if signed && c as int >= 128 then c as int - 256 else c as int
  }

  /** The cast to uint8_t. */
  function Narrow(c: int): char {
    (c % 256) as char
  }

  lemma WidenAndNarrow(s: string, signed: bool)
    requires Bytes(s)
    ensures Narrow(-1) != '\r' && Narrow(-1) != '\n'
    ensures s != "" ==> if signed then -128 <= Widen(s[0], signed) < 128 else Widen(s[0], signed) == s[0] as int
    ensures s != "" ==> Bytes(s[1..])
    ensures s != "" ==> Narrow(Widen(s[0], signed)) == s[0] && (Widen(s[0], signed) == -1 <==> EndsStream(s[0], signed))
  {
  }

  /** The buffer holds `text`, then one position that may hold anything, then zeros up to
      maxsize, and beyond that what it held before. */
  ghost predicate Layout(buf: seq<char>, before: seq<char>, text: string, maxsize: nat) {
    && |text| < maxsize <= |buf| == |before|
    && buf[..|text|] == text
    && (forall k :: |text| < k < maxsize ==> buf[k] == '\0')
    && buf[maxsize..] == before[maxsize..]
  }

  lemma LayoutPut(buf: seq<char>, before: seq<char>, text: string, maxsize: nat, x: char)
    requires Layout(buf, before, text, maxsize)
    ensures Layout(buf[|text| := x], before, text, maxsize)
    ensures |text| + 1 < maxsize ==> Layout(buf[|text| := x], before, text + [x], maxsize) && buf[|text| + 1] == '\0'
  {
    var buf' := buf[|text| := x];
    assert buf'[..|text|] == buf[..|text|];
    assert buf'[..|text| + 1] == text + [x];
    assert buf'[maxsize..] == buf[maxsize..];
  }

  /** buffer[i] = x, with i at the free position. */
  method Put(buffer: array<char>, i: nat, x: char, maxsize: nat, ghost before: seq<char>, ghost text: string)
    requires i == |text| && Layout(buffer[..], before, text, maxsize)
    modifies buffer
    ensures buffer[i] == x && Layout(buffer[..], before, text, maxsize)
    ensures i + 1 < maxsize ==> Layout(buffer[..], before, text + [x], maxsize) && buffer[i + 1] == '\0'
  {
    LayoutPut(buffer[..], before, text, maxsize, x);
    ghost var buf := buffer[..];
    buffer[i] := x;
    assert buffer[..] == buf[i := x];
  }

  /** getLine fills the zeroed buffer in place; `i` steps back over a carriage return, which
      the next character overwrites. */
  method GetLine(c: Tcp, buffer: array<char>, maxsize: nat) returns (n: int)
    requires 1 <= maxsize <= buffer.Length && c.isOpen && Bytes(c.rest)
    modifies c, buffer
    ensures var l := Scan(old(c.rest), maxsize - 1, c.signedChars);
            && n == l.Returned() && c.rest == l.rest && Bytes(c.rest)
            && Layout(buffer[..], old(buffer[..]), l.text, maxsize) && buffer[|l.text|] == '\0'
  {
    Zero(buffer, maxsize);
    var done := false;
    var i := 0;
    ghost var l, text := Scan(c.rest, maxsize - 1, c.signedChars), "";
    PrependToNothing("", c.rest, true);
    assert l == Prepend("", l) by { assert "" + l.text == l.text; }
    hide Scan, EndsStream, Widen, Narrow, Bytes, Layout, Prepend;
    while i < maxsize - 1 && !done
      invariant |text| == (if done then i - 1 else i) && 0 <= i < maxsize && Bytes(c.rest)
      invariant Layout(buffer[..], old(buffer[..]), text, maxsize)
      invariant buffer[|text|] == '\0' || (!done && i < maxsize - 1)
      invariant l == if done then Line(text, c.rest, true)
                     else Prepend(text, Scan(c.rest, maxsize - 1 - i, c.signedChars))
      decreases |c.rest|, !done
    {
      ghost var start := c.rest;
      ScanStep(start, maxsize - 1 - i, c.signedChars);
      WidenAndNarrow(start, c.signedChars);
      var bufchar := c.ReadChar();
      Put(buffer, i, Narrow(bufchar), maxsize, old(buffer[..]), text);
      if buffer[i] == '\r' {
        i := i - 1;
      } else if buffer[i] == '\n' || bufchar == -1 {
        done := true;
        Put(buffer, i, '\0', maxsize, old(buffer[..]), text);
        PrependToNothing(text, c.rest, true);
      } else {
        PrependPrepend(text, [start[0]], Scan(c.rest, maxsize - 2 - i, c.signedChars));
        text := text + [start[0]];
      }
      i := i + 1;
    }
    n := i - 1;
    if !done {
      ScanFull(c.rest, c.signedChars);
      PrependToNothing(text, c.rest, false);
    }
  }

  /** memset(buffer, 0, maxsize). */
  method Zero(buffer: array<char>, maxsize: nat)
    requires 1 <= maxsize <= buffer.Length
    modifies buffer
    ensures Layout(buffer[..], old(buffer[..]), "", maxsize) && buffer[0] == '\0'
  {
    forall k | 0 <= k < maxsize { buffer[k] := '\0'; }
    assert buffer[maxsize..] == old(buffer[maxsize..]);
  }

  lemma ScanFull(s: string, signed: bool)
    ensures Scan(s, 0, signed) == Line("", s, false)
  {
  }

  /** The line buffer after getLine. */
  lemma LineBuffer(buf: seq<char>, before: seq<char>, text: string, maxsize: nat)
    requires Layout(buf, before, text, maxsize) && buf[|text|] == '\0'
    ensures CString(buf) == CString(text)
  {
    var t := CString(text);
    assert buf[..|t|] == t by { assert buf[..|t|] == buf[..|text|][..|t|]; }
    if |t| < |text| { assert buf[|t|] == buf[..|text|][|t|]; }
    UpToIs(buf, t, '\0');
  }

  lemma CodeBuffer(buf: seq<char>, before: seq<char>, text: string, maxsize: nat)
    requires Layout(buf, before, text, maxsize) && buf[|text|] == '\0' && 12 <= maxsize
    ensures buf[9..12] == (text + seq(12, _ => '\0'))[9..12]
    ensures buf[..7] == "HTTP/1." <==> "HTTP/1." <= text
  {
    assert forall k :: 0 <= k < |text| ==> buf[k] == buf[..|text|][k];
    if |text| < 7 {
      assert buf[..7][|text|] == '\0' && "HTTP/1."[|text|] != '\0';
    } else {
      assert buf[..7] == text[..7];
    }
  }

  /** Cutting the line at the colon leaves the name before it and the value after it. */
  lemma CutAtColon(buf: seq<char>, line: string, colon: nat)
    requires CString(buf) == line && |line| < |buf| && colon < |line|
    ensures buf[colon + 1] == ' ' <==> colon + 1 < |line| && line[colon + 1] == ' '
    ensures var cut := buf[colon := '\0'];
            && CString(cut) == line[..colon] && cut[colon + 1] == buf[colon + 1]
            && CString(cut[colon + 1..]) == line[colon + 1..]
            && (colon + 2 <= |line| ==> CString(cut[colon + 2..]) == line[colon + 2..])
  {
    var cut := buf[colon := '\0'];
    assert buf[..|line|] == line && buf[|line|] == '\0';
    UpToIs(cut, line[..colon], '\0');
    assert cut[colon + 1..] == buf[colon + 1..];
    UpToIs(cut[colon + 1..], line[colon + 1..], '\0');
    if colon + 2 <= |line| { UpToIs(cut[colon + 2..], line[colon + 2..], '\0'); }
  }

  /** One pass of the header loop: whether to go on, or None for the null dereference. */
  method ReadHeader(c: Tcp, rBuffer: array<char>, acc: map<string, string>)
    returns (more: Option<bool>, headers: map<string, string>)
    requires rBuffer.Length == BUFFER_SIZE && c.isOpen && Bytes(c.rest)
    modifies c, rBuffer
    ensures Bytes(c.rest) && |c.rest| <= |old(c.rest)|
    ensures var was := ReadHeaders(old(c.rest), acc, c.signedChars);
            && (more.None? ==> was == NullPointer)
            && (more == Some(false) ==> was == Headers(headers, c.rest))
            && (more == Some(true) ==> |c.rest| < |old(c.rest)| && was == ReadHeaders(c.rest, headers, c.signedChars))
  {
    headers := acc;
    ghost var l := Scan(c.rest, LINE_SIZE - 1, c.signedChars);
    NextHeader(c.rest, acc, l, c.signedChars);
    hide ReadHeaders, Scan, CString, Find, Bytes;
    var s := GetLine(c, rBuffer, LINE_SIZE);
    LineBuffer(rBuffer[..], old(rBuffer[..]), l.text, LINE_SIZE);
    hide Layout, HeaderValue;
    var line := CString(rBuffer[..]);
    if s > 0 && line != "" {
      var found := Find(line, ':');
      if found.None? { return None, headers; }
      var name, value := CutHeader(rBuffer, line, found.value);
      headers := headers[name := value];
    }
    more := Some(s > 0 && CString(rBuffer[..]) != "");
  }

  /** Writes a NUL over the colon and skips one blank behind it. */
  method CutHeader(rBuffer: array<char>, line: string, colon: nat) returns (name: string, value: string)
    requires CString(rBuffer[..]) == line && |line| < rBuffer.Length && colon < |line|
    modifies rBuffer
    ensures name == line[..colon] == CString(rBuffer[..]) && value == HeaderValue(line, colon)
  {
    hide CString;
    ghost var buf := rBuffer[..];
    CutAtColon(buf, line, colon);
    var dppos := colon;
    rBuffer[dppos] := '\0';
    assert rBuffer[..] == buf[colon := '\0'];
    if rBuffer[dppos + 1] == ' ' {
      dppos := dppos + 1;
    }
    dppos := dppos + 1;
    name, value := CString(rBuffer[..]), CString(rBuffer[dppos..]);
    assert rBuffer[dppos..] == rBuffer[..][dppos..];
  }

  /** The header loop; None stands for the null dereference. */
  method ReadHeaderLoop(c: Tcp, rBuffer: array<char>) returns (headers: Option<map<string, string>>)
    requires rBuffer.Length == BUFFER_SIZE && c.isOpen && Bytes(c.rest)
    modifies c, rBuffer
    ensures ReadHeaders(old(c.rest), map[], c.signedChars) ==
              match headers case None => NullPointer case Some(m) => Headers(m, c.rest)
  {
    hide *;
    var m: map<string, string> := map[];
    var more := Some(true);
    while more == Some(true)
      invariant Bytes(c.rest)
      invariant ReadHeaders(old(c.rest), map[], c.signedChars) ==
                match more
                case None => NullPointer
                case Some(go) => if go then ReadHeaders(c.rest, m, c.signedChars) else Headers(m, c.rest)
      decreases |c.rest|, more == Some(true)
    {
      more, m := ReadHeader(c, rBuffer, m);
    }
    headers := if more.None? then None else Some(m);
  }

  /** The part of httpRequest that reads the head of the response. */
  method ReadResponse(c: Tcp) returns (r: Head)
    requires c.isOpen && Bytes(c.rest)
    modifies c
    ensures r == ReadHead(old(c.rest), c.signedChars)
    ensures r.Head? ==> c.rest == r.body
  {
    var rBuffer := new char[BUFFER_SIZE](_ => '\0');
    ghost var l, before := Scan(c.rest, LINE_SIZE - 1, c.signedChars), rBuffer[..];
    ReadHeadDefinition(c.rest, l, c.signedChars);
    hide *;
    var s := GetLine(c, rBuffer, LINE_SIZE);
    CodeBuffer(rBuffer[..], before, l.text, LINE_SIZE);
    assert rBuffer[..7] == rBuffer[..][..7] && rBuffer[9..12] == rBuffer[..][9..12];
    if rBuffer[..7] == "HTTP/1." {
      var code := Atoi(CString(rBuffer[9..12])) % TWO_16;
      var headers := ReadHeaderLoop(c, rBuffer);
      r := match headers case None => Crash case Some(m) => Head(code, m, c.rest);
    } else {
      r := Malformed;
    }
  }

  lemma ReadHeadDefinition(s: string, l: Line, signed: bool)
    requires l == Scan(s, LINE_SIZE - 1, signed)
    ensures ReadHead(s, signed) ==
              if "HTTP/1." <= l.text then
                match ReadHeaders(l.rest, map[], signed)
                case NullPointer => Crash
                case Headers(m, rest) => Head(Atoi(CString((l.text + seq(12, _ => '\0'))[9..12])) % TWO_16, m, rest)
              else Malformed
  {
  }
}
