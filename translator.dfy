/**
 * Reading the application handler's raw output back into a response:
 * split it into header block and body, take the numeric `Status`
 * pseudo-header of RFC 3875 section 6.3.3 out of the header, move the
 * `set-cookie` values into the cookie list and join every other header's
 * values with ", ".
 */
module Translator {
  import opened Common
  import opened LineAnchors

  /** `parse_header`'s result: lower-case header name to its values in order of appearance. */
  type HeaderMap = map<string, seq<string>>

  /** `[\r\n]` */
  predicate IsCrLf(ch: char) {
    ch == '\r' || ch == '\n'
  }

  /** `\d` */
  predicate IsDigit(ch: char) {
    '0' <= ch <= '9'
  }

  /** `raw_header, body = *data.split(/^[\r\n]+/, 2)`; None stands for nil. */
  datatype Pieces = Pieces(rawHeader: Option<string>, body: Option<string>)

  /**
   * Splitting the output at its first blank-line separator: the first
   * line-start position holding a CR or LF, extended over the whole run of
   * CR and LF bytes that follows.
   */
  function SplitOutput(data: string): (r: Pieces)
    ensures data == [] ==> r == Pieces(None, None)
    ensures data != [] ==> r.rawHeader.Some?
    ensures data != [] && r.body.None? ==>
              r.rawHeader.value == data && forall p :: 0 <= p < |data| ==> !RunStartsAt(data, p, IsCrLf)
    ensures r.body.Some? ==>
              var h, b := r.rawHeader.value, r.body.value;
              && |h| + |b| < |data|
              && data == h + data[|h|..|data| - |b|] + b
              && RunStartsAt(data, |h|, IsCrLf)
              && (forall p :: 0 <= p < |h| ==> !RunStartsAt(data, p, IsCrLf))
              && (forall i :: |h| <= i < |data| - |b| ==> IsCrLf(data[i]))
              && (b == [] || !IsCrLf(b[0]))
  {
    if data == [] then Pieces(None, None)
    else match FirstRun(data, IsCrLf)
      case None => Pieces(Some(data), None)
      case Some(sep) =>
        var h, b := data[..sep.start], data[sep.end..];
        assert |h| == sep.start && |data| - |b| == sep.end;
        assert data == h + data[|h|..|data| - |b|] + b;
        Pieces(Some(h), Some(b))
  }

  /**
   * A header block followed by a separator and a body splits back into that
   * header block and that body, provided no line of the header block is
   * blank and the body does not start with CR or LF.
   */
  lemma {:induction false} SplitFindsSeparator(h: string, sep: string, b: string)
    requires h == [] || h[|h| - 1] == '\n'
    requires forall p :: 0 <= p < |h| ==> !RunStartsAt(h, p, IsCrLf)
    requires sep != [] && forall i :: 0 <= i < |sep| ==> IsCrLf(sep[i])
    requires b == [] || !IsCrLf(b[0])
    ensures SplitOutput(h + sep + b) == Pieces(Some(h), Some(b))
  {
    var data := h + sep + b;
    assert forall p :: 0 <= p < |h| ==> RunStartsAt(data, p, IsCrLf) == RunStartsAt(h, p, IsCrLf);
    assert RunStartsAt(data, |h|, IsCrLf);
    var span := FirstRun(data, IsCrLf).value;
    assert span.start == |h|;
    assert forall i :: |h| <= i < |h| + |sep| ==> IsCrLf(data[i]);
    assert span.end == |h| + |sep| by {
      assert span.end == |data| || !IsCrLf(data[span.end]);
      assert |h| + |sep| == |data| || !IsCrLf(data[|h| + |sep|]);
    }
    assert data[..|h|] == h;
    assert data[|h| + |sep|..] == b;
  }

  /** `header_lines` each followed by CR LF, as the handler writes its header block. */
  function HeaderBlock(lines: seq<string>): string
    decreases |lines|
  {
    if lines == [] then [] else lines[0] + "\r\n" + HeaderBlock(lines[1..])
  }

  /** A non-empty header line holding no CR or LF. */
  predicate IsHeaderLine(line: string) {
    line != [] && forall i :: 0 <= i < |line| ==> !IsCrLf(line[i])
  }

  lemma {:induction false} HeaderBlockHasNoSeparator(lines: seq<string>)
    requires forall i :: 0 <= i < |lines| ==> IsHeaderLine(lines[i])
    ensures var h := HeaderBlock(lines); h == [] || h[|h| - 1] == '\n'
    ensures forall p :: 0 <= p < |HeaderBlock(lines)| ==> !RunStartsAt(HeaderBlock(lines), p, IsCrLf)
    ensures lines != [] ==> !IsCrLf(HeaderBlock(lines)[0])
    decreases |lines|
  {
    if lines != [] {
      var line, rest := lines[0], HeaderBlock(lines[1..]);
      HeaderBlockHasNoSeparator(lines[1..]);
      var h := line + "\r\n" + rest;
      assert h == HeaderBlock(lines);
      var n := |line|;
      forall p | 0 <= p < |h|
        ensures !RunStartsAt(h, p, IsCrLf)
      {
        if p < n {
          assert h[p] == line[p];
        } else if p == n {
          assert h[p - 1] == line[n - 1];
        } else if p == n + 1 {
          assert h[p - 1] == '\r';
        } else {
          assert h[p] == rest[p - n - 2];
          assert p - n - 2 > 0 ==> h[p - 1] == rest[p - n - 3];
          assert RunStartsAt(h, p, IsCrLf) == RunStartsAt(rest, p - n - 2, IsCrLf);
        }
      }
      assert h[0] == line[0];
    }
  }

  /**
   * Round trip: header lines, a blank line and a body written by the
   * handler split back into exactly that header block and that body.
   */
  lemma {:induction false} SplitRoundTrip(lines: seq<string>, b: string)
    requires forall i :: 0 <= i < |lines| ==> IsHeaderLine(lines[i])
    requires b == [] || !IsCrLf(b[0])
    ensures SplitOutput(HeaderBlock(lines) + "\r\n" + b) == Pieces(Some(HeaderBlock(lines)), Some(b))
  {
    HeaderBlockHasNoSeparator(lines);
    var sep := "\r\n";
    assert forall i :: 0 <= i < |sep| ==> IsCrLf(sep[i]);
    SplitFindsSeparator(HeaderBlock(lines), sep, b);
  }

  /**
   * `$1` after `/^(\d+)/ =~ value`: the digits of the first line of `value`
   * that starts with a digit, or None when no line does.
   */
  function StatusDigits(value: string): (d: Option<string>)
    ensures d.None? <==> forall p :: 0 <= p < |value| ==> !RunStartsAt(value, p, IsDigit)
    ensures d.Some? ==> d.value != [] && forall i :: 0 <= i < |d.value| ==> IsDigit(d.value[i])
    ensures d.Some? ==> exists p: nat :: && RunStartsAt(value, p, IsDigit)
                                         && (forall q :: 0 <= q < p ==> !RunStartsAt(value, q, IsDigit))
                                         && p + |d.value| <= |value| && value[p..p + |d.value|] == d.value
                                         && (p + |d.value| == |value| || !IsDigit(value[p + |d.value|]))
  {
    match FirstRun(value, IsDigit)
    case None => None
    case Some(span) =>
      var d := value[span.start..span.end];
      assert value[span.start..span.start + |d|] == d;
      assert forall q :: 0 <= q < span.start ==> !RunStartsAt(value, q, IsDigit);
      Some(d)
  }

  /** 10 to the power `k`. */
  function Pow10(k: nat): (p: nat)
    ensures p >= 1
  {
    if k == 0 then 1 else 10 * Pow10(k - 1)
  }

  /** `to_i` of a string of decimal digits: a number below 10 to the power of its length. */
  function DecimalValue(digits: string): (n: nat)
    requires forall i :: 0 <= i < |digits| ==> IsDigit(digits[i])
    ensures n < Pow10(|digits|)
    decreases |digits|
  {
    if digits == [] then 0
    else
      assert IsDigit(digits[|digits| - 1]);
      10 * DecimalValue(digits[..|digits| - 1]) + (digits[|digits| - 1] as int - '0' as int)
  }

  /** Reading `a + b` shifts the value of `a` past the digits of `b`. */
  lemma {:induction false} DecimalValueAppend(a: string, b: string)
    requires forall i :: 0 <= i < |a| ==> IsDigit(a[i])
    requires forall i :: 0 <= i < |b| ==> IsDigit(b[i])
    ensures forall i :: 0 <= i < |a + b| ==> IsDigit((a + b)[i])
    ensures DecimalValue(a + b) == DecimalValue(a) * Pow10(|b|) + DecimalValue(b)
    decreases |b|
  {
    assert forall i :: 0 <= i < |a + b| ==> IsDigit((a + b)[i]);
    if b == [] {
      assert a + b == a;
    } else {
      var b' := b[..|b| - 1];
      var c := b[|b| - 1] as int - '0' as int;
      DecimalValueAppend(a, b');
      assert (a + b)[..|a + b| - 1] == a + b';
      assert (a + b)[|a + b| - 1] == b[|b| - 1];
      var x, y, p := DecimalValue(a), DecimalValue(b'), Pow10(|b'|);
      assert DecimalValue(a + b) == 10 * (x * p + y) + c;
      assert DecimalValue(b) == 10 * y + c;
      assert Pow10(|b|) == 10 * p;
      ShiftByTen(x, p);
    }
  }

  /** Multiplying by ten times a power is ten times the product. */
  lemma ShiftByTen(x: nat, p: nat)
    ensures x * (10 * p) == 10 * (x * p)
  {
  }

  /** A string of zeros reads as 0. */
  lemma {:induction false} ZerosValue(zeros: string)
    requires forall i :: 0 <= i < |zeros| ==> zeros[i] == '0'
    ensures DecimalValue(zeros) == 0
    decreases |zeros|
  {
    if zeros != [] {
      ZerosValue(zeros[..|zeros| - 1]);
    }
  }

  /** `to_i` ignores leading zeros: `"0302".to_i` is `"302".to_i`. */
  lemma {:induction false} LeadingZerosIgnored(zeros: string, digits: string)
    requires forall i :: 0 <= i < |zeros| ==> zeros[i] == '0'
    requires forall i :: 0 <= i < |digits| ==> IsDigit(digits[i])
    ensures forall i :: 0 <= i < |zeros + digits| ==> IsDigit((zeros + digits)[i])
    ensures DecimalValue(zeros + digits) == DecimalValue(digits)
  {
    DecimalValueAppend(zeros, digits);
    ZerosValue(zeros);
  }

  /** `n.to_s`: the decimal digits of `n`, without leading zeros. */
  function DecimalString(n: nat): (s: string)
    ensures s != [] && forall i :: 0 <= i < |s| ==> IsDigit(s[i])
    ensures |s| > 1 ==> s[0] != '0'
    decreases n
  {
    if n < 10 then [('0' as int + n) as char]
    else DecimalString(n / 10) + [('0' as int + n % 10) as char]
  }

  /** `to_i` reads back what `to_s` wrote. */
  lemma {:induction false} DecimalValueOfString(n: nat)
    ensures DecimalValue(DecimalString(n)) == n
    decreases n
  {
    var s := DecimalString(n);
    if n < 10 {
      assert s[..0] == [];
    } else {
      DecimalValueOfString(n / 10);
      assert s[..|s| - 1] == DecimalString(n / 10);
    }
  }

  /**
   * The code `assign_status` applies: the value of the leading digits of the
   * first `status` value. A missing `status` header reads as the hash's
   * default, the empty list, whose first element is nil and never matches.
   */
  function StatusCode(header: HeaderMap): (code: Option<nat>)
    ensures code.None? <==>
              || "status" !in header || header["status"] == []
              || forall p :: 0 <= p < |header["status"][0]| ==> !RunStartsAt(header["status"][0], p, IsDigit)
  {
    if "status" !in header || header["status"] == [] then None
    else match StatusDigits(header["status"][0])
      case None => None
      case Some(digits) => Some(DecimalValue(digits))
  }

  /**
   * A status the handler writes as a decimal number, possibly padded with
   * leading zeros and optionally followed by a reason phrase such as
   * " Found", is the code the response gets.
   */
  lemma {:induction false} StatusRoundTrip(header: HeaderMap, zeros: string, n: nat, reason: string)
    requires "status" in header && header["status"] != []
    requires forall i :: 0 <= i < |zeros| ==> zeros[i] == '0'
    requires header["status"][0] == zeros + DecimalString(n) + reason
    requires reason == [] || !IsDigit(reason[0])
    ensures StatusCode(header) == Some(n)
  {
    var value := header["status"][0];
    LeadingZerosIgnored(zeros, DecimalString(n));
    var digits := zeros + DecimalString(n);
    assert value == digits + reason;
    assert value[0] == digits[0];
    assert RunStartsAt(value, 0, IsDigit);
    var d := StatusDigits(value).value;
    var p: nat :| && RunStartsAt(value, p, IsDigit)
                  && (forall q :: 0 <= q < p ==> !RunStartsAt(value, q, IsDigit))
                  && p + |d| <= |value| && value[p..p + |d|] == d
                  && (p + |d| == |value| || !IsDigit(value[p + |d|]));
    assert p == 0;
    LeadingDigits(digits, reason, d);
    DecimalValueOfString(n);
  }

  /** The maximal digit run at the start of `digits + reason` is `digits` itself. */
  lemma {:induction false} LeadingDigits(digits: string, reason: string, d: string)
    requires forall i :: 0 <= i < |digits| ==> IsDigit(digits[i])
    requires reason == [] || !IsDigit(reason[0])
    requires forall i :: 0 <= i < |d| ==> IsDigit(d[i])
    requires |d| <= |digits + reason| && (digits + reason)[..|d|] == d
    requires |d| == |digits + reason| || !IsDigit((digits + reason)[|d|])
    ensures d == digits
  {
    var value := digits + reason;
    assert forall i :: 0 <= i < |digits| ==> value[i] == digits[i];
    assert forall i :: 0 <= i < |d| ==> value[i] == d[i];
    assert |digits| < |value| ==> value[|digits|] == reason[0];
    assert |d| == |digits|;
    assert d == value[..|digits|];
  }

  /** The sum of the lengths of `values`. */
  function TotalLength(values: seq<string>): nat
    decreases |values|
  {
    if values == [] then 0 else |values[0]| + TotalLength(values[1..])
  }

  /** `values.join(sep)` */
  function Join(values: seq<string>, sep: string): string
    decreases |values|
  {
    if values == [] then ""
    else if |values| == 1 then values[0]
    else values[0] + sep + Join(values[1..], sep)
  }

  /** The joined string starts with the first value and ends with the last. */
  lemma {:induction false} JoinEnds(values: seq<string>, sep: string)
    requires values != []
    ensures var s, last := Join(values, sep), values[|values| - 1];
            && |values[0]| <= |s| && s[..|values[0]|] == values[0]
            && |last| <= |s| && s[|s| - |last|..] == last
    decreases |values|
  {
    if |values| > 1 {
      JoinEnds(values[1..], sep);
      assert values[1..][|values[1..]| - 1] == values[|values| - 1];
    }
  }

  /** Joining one more value appends a separator and that value. */
  lemma {:induction false} JoinSnoc(values: seq<string>, v: string, sep: string)
    requires values != []
    ensures Join(values + [v], sep) == Join(values, sep) + sep + v
    decreases |values|
  {
    if |values| > 1 {
      assert (values + [v])[1..] == values[1..] + [v];
      JoinSnoc(values[1..], v, sep);
    } else {
      assert (values + [v])[1..] == [v];
    }
  }

  /** The joined string holds every value and one separator between each pair of neighbours. */
  lemma {:induction false} JoinLength(values: seq<string>, sep: string)
    requires values != []
    ensures |Join(values, sep)| == TotalLength(values) + (|values| - 1) * |sep|
    decreases |values|
  {
    if |values| > 1 {
      JoinLength(values[1..], sep);
      assert (|values| - 1) * |sep| == (|values| - 2) * |sep| + |sep|;
    }
  }

  /** Every header with its values joined by ", ", as `res[key] = val.join(", ")` stores it. */
  function JoinHeaders(header: HeaderMap): map<string, string> {
    map k | k in header :: Join(header[k], ", ")
  }

  /** Joining keeps the header names, and a header with a single value passes through unchanged. */
  lemma {:induction false} JoinHeadersShape(header: HeaderMap)
    ensures JoinHeaders(header).Keys == header.Keys
    ensures forall k :: k in header && |header[k]| == 1 ==> JoinHeaders(header)[k] == header[k][0]
  {
  }

  /** Writing one more header's joined values extends the joined map of the headers written so far. */
  lemma {:induction false} JoinHeadersInsert(header: HeaderMap, pending: set<string>, key: string)
    requires key in pending && key in header
    ensures JoinHeaders(header - (pending - {key})) == JoinHeaders(header - pending)[key := Join(header[key], ", ")]
  {
    var after, before := JoinHeaders(header - (pending - {key})), JoinHeaders(header - pending);
    assert after.Keys == before.Keys + {key};
  }

  /** Writing one more header over `base` extends what the headers written so far produced. */
  lemma {:induction false} WriteOneHeader(base: map<string, string>, header: HeaderMap, pending: set<string>, key: string)
    requires key in pending && key in header
    ensures (base + JoinHeaders(header - pending))[key := Join(header[key], ", ")]
            == base + JoinHeaders(header - (pending - {key}))
  {
    var written := JoinHeaders(header - pending);
    JoinHeadersInsert(header, pending, key);
    assert base + written[key := Join(header[key], ", ")] == (base + written)[key := Join(header[key], ", ")];
  }

  /**
   * `extract_header_and_body` followed by `parse_header`, with `parse` the
   * header parser (None when it raises). Empty output splits into no pieces
   * at all, and parsing the resulting nil header raises.
   */
  function ExtractHeaderAndBody(data: string, parse: string -> Option<HeaderMap>): (r: Option<(HeaderMap, Option<string>)>)
    ensures r.None? <==> data == [] || parse(SplitOutput(data).rawHeader.value).None?
    ensures r.Some? ==> r.value.0 == parse(SplitOutput(data).rawHeader.value).value
    ensures r.Some? ==> r.value.1 == SplitOutput(data).body
  {
    var pieces := SplitOutput(data);
    if pieces.rawHeader.None? then None
    else match parse(pieces.rawHeader.value)
      case None => None
      case Some(header) => Some((header, pieces.body))
  }

  /**
   * What lines 93-98 of `handle_dispatch` make of the handler's output.
   * `Aborted` when something raised, carrying the status code if
   * `assign_status` had already set it; `Translated` with the status set (if
   * any), the cookies appended, the headers written and the body.
   */
  datatype Translation =
    | Aborted(status: Option<nat>)
    | Translated(status: Option<nat>, cookies: seq<string>, header: map<string, string>, body: Option<string>)

  /** `output` is what the handler wrote, None when `Dispatcher.dispatch` raised. */
  function TranslateOutput(output: Option<string>, parse: string -> Option<HeaderMap>): (t: Translation)
    ensures output.None? ==> t == Aborted(None)
    ensures output.Some? && ExtractHeaderAndBody(output.value, parse).None? ==> t == Aborted(None)
    ensures output.Some? && ExtractHeaderAndBody(output.value, parse).Some? ==>
              var (header, body) := ExtractHeaderAndBody(output.value, parse).value;
              && t.status == StatusCode(header)
              && (t.Translated? <==> "set-cookie" in header)
              && (t.Translated? ==>
                    && t.cookies == header["set-cookie"]
                    && t.body == body
                    && "set-cookie" !in t.header
                    && ("status" in t.header <==> "status" in header && StatusCode(header).None?)
                    && (forall k :: k in t.header <==> k in header && k != "set-cookie" && (k != "status" || StatusCode(header).None?))
                    && (forall k :: k in t.header ==> t.header[k] == Join(header[k], ", ")))
  {
    if output.None? then Aborted(None)
    else match ExtractHeaderAndBody(output.value, parse)
      case None => Aborted(None)
      case Some((header, body)) =>
        var status := StatusCode(header);
        var rest := if status.Some? then header - {"status"} else header;
        if "set-cookie" !in rest then Aborted(status)
        else Translated(status, rest["set-cookie"], JoinHeaders(rest - {"set-cookie"}), body)
  }

  /** The status value "302" reads as the code 302. */
  lemma StatusDigits302()
    ensures StatusDigits("302") == Some("302") && DecimalValue("302") == 302
  {
    var s := "302";
    assert RunStartsAt(s, 0, IsDigit);
    assert FirstRunStart(s, 0, IsDigit) == Some(0);
    assert RunEnd(s, 3, IsDigit) == 3;
    assert RunEnd(s, 2, IsDigit) == 3;
    assert RunEnd(s, 1, IsDigit) == 3;
    assert RunEnd(s, 0, IsDigit) == 3;
    assert s[0..3] == s;
    assert s[..2] == "30" && "30"[..1] == "3" && "3"[..0] == "";
    assert DecimalValue("3") == 3;
    assert DecimalValue("30") == 30;
  }

  /** Two header lines, each followed by CR LF. */
  lemma {:induction false} HeaderBlockOfTwo(a: string, b: string)
    ensures HeaderBlock([a, b]) == a + "\r\n" + b + "\r\n"
  {
    assert [a, b][1..] == [b];
    assert HeaderBlock([b]) == b + "\r\n" + [] by {
      assert [b][1..] == [];
    }
    assert b + "\r\n" + [] == b + "\r\n";
  }

  /** Three header lines, each followed by CR LF. */
  lemma {:induction false} HeaderBlockOfThree(a: string, b: string, c: string)
    ensures HeaderBlock([a, b, c]) == a + "\r\n" + b + "\r\n" + c + "\r\n"
  {
    assert [a, b, c][1..] == [b, c];
    HeaderBlockOfTwo(b, c);
    assert a + "\r\n" + (b + "\r\n" + c + "\r\n") == a + "\r\n" + b + "\r\n" + c + "\r\n";
  }

  /** The header lines of the examples below. */
  const StatusLine := "status: 302"
  const LocationLine := "Location: /x"
  const CookieLine := "Set-Cookie: id=1"

  /** The header lines of the examples below hold no CR or LF. */
  lemma ExampleLinesAreHeaderLines()
    ensures IsHeaderLine(StatusLine) && IsHeaderLine(LocationLine) && IsHeaderLine(CookieLine)
  {
  }

  /** The status header of both redirect examples reads as 302. */
  lemma {:induction false} RedirectStatus(header: HeaderMap)
    requires "status" in header && header["status"] == ["302"]
    ensures StatusCode(header) == Some(302)
  {
    StatusDigits302();
  }

  /** What remains of the cookie example's header once `status` and `set-cookie` are taken out. */
  lemma RedirectWithCookieRest()
    ensures var header := map["status" := ["302"], "location" := ["/x"], "set-cookie" := ["id=1"]];
            JoinHeaders(header - {"status"} - {"set-cookie"}) == map["location" := "/x"]
  {
    var header := map["status" := ["302"], "location" := ["/x"], "set-cookie" := ["id=1"]];
    var rest := header - {"status"} - {"set-cookie"};
    assert rest.Keys == {"location"};
    assert rest == map["location" := ["/x"]];
    assert JoinHeaders(rest) == map["location" := "/x"];
  }

  /**
   * The output "status: 302\r\nLocation: /x\r\nSet-Cookie: id=1\r\n\r\nbody":
   * status 302, the cookie moved to the cookie list, `location` kept,
   * `status` dropped and the body passed through.
   */
  lemma {:induction false} RedirectWithCookie(parse: string -> Option<HeaderMap>)
    requires parse(StatusLine + "\r\n" + LocationLine + "\r\n" + CookieLine + "\r\n")
             == Some(map["status" := ["302"], "location" := ["/x"], "set-cookie" := ["id=1"]])
    ensures TranslateOutput(Some(StatusLine + "\r\n" + LocationLine + "\r\n" + CookieLine + "\r\n" + "\r\n" + "body"), parse)
            == Translated(Some(302), ["id=1"], map["location" := "/x"], Some("body"))
  {
    var header := map["status" := ["302"], "location" := ["/x"], "set-cookie" := ["id=1"]];
    ExampleLinesAreHeaderLines();
    HeaderBlockOfThree(StatusLine, LocationLine, CookieLine);
    SplitRoundTrip([StatusLine, LocationLine, CookieLine], "body");
    RedirectStatus(header);
    RedirectWithCookieRest();
  }

  /**
   * The same output without the cookie line: `header.delete('set-cookie')`
   * is nil, so the translation aborts after the status has been set.
   */
  lemma {:induction false} RedirectWithoutCookie(parse: string -> Option<HeaderMap>)
    requires parse(StatusLine + "\r\n" + LocationLine + "\r\n")
             == Some(map["status" := ["302"], "location" := ["/x"]])
    ensures TranslateOutput(Some(StatusLine + "\r\n" + LocationLine + "\r\n" + "\r\n" + "body"), parse) == Aborted(Some(302))
  {
    ExampleLinesAreHeaderLines();
    HeaderBlockOfTwo(StatusLine, LocationLine);
    SplitRoundTrip([StatusLine, LocationLine], "body");
    RedirectStatus(map["status" := ["302"], "location" := ["/x"]]);
  }

  /**
   * Output without any blank line is not rejected: all of it is the header
   * block, the body is nil, and the translation completes when the header
   * parses and carries a cookie.
   */
  lemma {:induction false} OutputWithoutSeparator(parse: string -> Option<HeaderMap>)
    requires parse("Set-Cookie: id=1") == Some(map["set-cookie" := ["id=1"]])
    ensures TranslateOutput(Some("Set-Cookie: id=1"), parse) == Translated(None, ["id=1"], map[], None)
  {
    var data := "Set-Cookie: id=1";
    assert forall p :: 0 <= p < |data| ==> !RunStartsAt(data, p, IsCrLf);
    assert SplitOutput(data) == Pieces(Some(data), None);
    assert StatusCode(map["set-cookie" := ["id=1"]]) == None;
    assert map["set-cookie" := ["id=1"]] - {"set-cookie"} == map[];
  }
}
