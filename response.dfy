/** The response builder of the test server (`make_response` and its two
    templates): a request gets the healthy reply unless it contains the
    marker `inflight`, and both timestamp fields are stamped with one date. */
module Response {

  /** `w` occurs in `s` starting at index `i`. */
  predicate OccursAt(s: string, w: string, i: int)
  {
    0 <= i && i + |w| <= |s| && s[i..i + |w|] == w
  }

  /** `w in s` for strings: `w` occurs somewhere in `s`. */
  predicate Contains(s: string, w: string)
  {
    exists i | 0 <= i <= |s| - |w| :: OccursAt(s, w, i)
  }

  /** The placeholder that both templates carry in their two timestamp fields. */
  const Placeholder: string := "%DATE%"

  /** The marker a request must contain (case-sensitively) to get the in-flight reply. */
  const InFlightMarker: string := "inflight"

  const HealthyBody: string := "HEALTH OK"
  const InFlightBody: string := "IN-FLIGHT"

  // The fixed text of both templates, cut at the two timestamp fields. The
  // lines are split into short literals so that the fact lemmas about each
  // piece stay small for the solver.
  const StatusLine: string := "HTTP/1.1 200 OK\n"
  const ServerLine: string := "Server: " + "my-socket-server/" + "0.0.1\n"
  const TypeLine: string := "Content-Type: " + "text/plain; " + "charset=utf8\n"
  const LengthLine: string := "Content-Length: 9\n"
  const StatusLines: string := StatusLine + ServerLine + "Date: "
  const ModifiedField: string := "\n" + "Last-Modified: "
  const ContentLines: string := "\n" + TypeLine + LengthLine + "\n"

  /** The response text with `stamp` in the Date and the Last-Modified field
      and `body` after the blank line. */
  function Fill(body: string, stamp: string): string
  {
    StatusLines + stamp + ModifiedField + stamp + ContentLines + body
  }

  /** The two templates: `%DATE%` in both timestamp fields. */
  const HealthyTemplate: string := Fill(HealthyBody, Placeholder)
  const InFlightTemplate: string := Fill(InFlightBody, Placeholder)

  /** `t.replace('%DATE%', date)`: scans left to right and replaces every
      non-overlapping occurrence of the placeholder. */
  function StampDate(t: string, date: string): (r: string)
    ensures '%' !in t ==> r == t
    decreases |t|
  {
    if |t| < |Placeholder| then t
    else if t[..|Placeholder|] == Placeholder then
      assert t[0] == '%';
      date + StampDate(t[|Placeholder|..], date)
    else
      assert '%' !in t ==> '%' !in t[1..];
      [t[0]] + StampDate(t[1..], date)
  }

  /** The request asks for the in-flight reply: it is non-empty and holds the marker. */
  predicate AsksInFlight(request: string)
  {
    |request| > 0 && Contains(request, InFlightMarker)
  }

  /** `make_response(data)` with the formatted clock reading passed in as `date`:
      the reply is the chosen template with `date` in both timestamp fields and
      nothing else changed. */
  function MakeResponse(request: string, date: string): (r: string)
    ensures AsksInFlight(request) ==> r == Fill(InFlightBody, date)
    ensures !AsksInFlight(request) ==> r == Fill(HealthyBody, date)
  {
    BodyFacts();
    StampFill(InFlightBody, date);
    StampFill(HealthyBody, date);
    if |request| > 0 && Contains(request, InFlightMarker) then StampDate(InFlightTemplate, date)
    else StampDate(HealthyTemplate, date)
  }

  /** The writer's test `"IN-FLIGHT" in msg`, which decides whether a reply is stalled. */
  predicate Stalls(msg: string)
  {
    Contains(msg, InFlightBody)
  }

  // ---------------------------------------------------------------------------
  // Replacing the placeholder

  /** Text without a `%` passes through the replacement unchanged. */
  lemma {:induction false} StampLiteral(p: string, rest: string, date: string)
    requires '%' !in p
    ensures StampDate(p + rest, date) == p + StampDate(rest, date)
    decreases |p|
  {
    if p != [] {
      var t := p + rest;
      assert t[1..] == p[1..] + rest;
      StampLiteral(p[1..], rest, date);
      if |t| < |Placeholder| {
        assert StampDate(rest, date) == rest;
        assert StampDate(t, date) == t;
      } else {
        assert t[0] == p[0] != '%';
        assert t[..|Placeholder|] != Placeholder;
        assert StampDate(t, date) == [t[0]] + StampDate(t[1..], date);
        assert p == [p[0]] + p[1..];
      }
    } else {
      assert p + rest == rest;
    }
  }

  /** A placeholder at the front is replaced by the date. */
  lemma StampPlaceholder(rest: string, date: string)
    ensures StampDate(Placeholder + rest, date) == date + StampDate(rest, date)
  {
    var t := Placeholder + rest;
    assert t[..|Placeholder|] == Placeholder;
    assert t[|Placeholder|..] == rest;
  }

  /** Replacing the placeholder in text of the template's shape: both
      placeholders become the date and the `%`-free pieces stay as they are. */
  lemma StampShape(p1: string, p2: string, p3: string, p4: string, date: string)
    requires '%' !in p1 && '%' !in p2 && '%' !in p3 && '%' !in p4
    ensures StampDate(p1 + Placeholder + p2 + Placeholder + p3 + p4, date)
         == p1 + date + p2 + date + p3 + p4
  {
    var tail := p3 + p4;
    assert '%' !in tail;
    assert p1 + Placeholder + p2 + Placeholder + p3 + p4 == p1 + (Placeholder + (p2 + (Placeholder + tail)));
    assert p1 + date + p2 + date + p3 + p4 == p1 + (date + (p2 + (date + tail)));
    StampLiteral(p1, Placeholder + (p2 + (Placeholder + tail)), date);
    StampPlaceholder(p2 + (Placeholder + tail), date);
    StampLiteral(p2, Placeholder + tail, date);
    StampPlaceholder(tail, date);
    StampLiteral(tail, [], date);
    assert tail + [] == tail;
  }

  /** Stamping a template puts the same date into both timestamp fields and
      leaves every other character as it was. */
  lemma StampFill(body: string, date: string)
    requires '%' !in body
    ensures StampDate(Fill(body, Placeholder), date) == Fill(body, date)
  {
    StatusFacts();
    ModifiedFacts();
    ContentFacts();
    StampShape(StatusLines, ModifiedField, ContentLines, body, date);
  }

  // ---------------------------------------------------------------------------
  // Substrings

  /** A string that lacks one of the characters of `w` does not contain `w`. */
  lemma MissingChar(s: string, w: string, c: char)
    requires c in w && c !in s
    ensures !Contains(s, w)
  {
  }

  /** An occurrence in `a + b` lies within `a` or within `b` when the
      characters at the seam cannot be part of `w`. */
  lemma ContainsConcat(a: string, b: string, w: string)
    requires (|a| > 0 && a[|a| - 1] !in w) || (|b| > 0 && b[0] !in w)
    ensures Contains(a + b, w) ==> Contains(a, w) || Contains(b, w)
  {
    if Contains(a + b, w) {
      var s := a + b;
      var i :| 0 <= i <= |s| - |w| && OccursAt(s, w, i);
      assert s[i..i + |w|] == w;
      // every character the occurrence covers, seam included, is one of `w`
      assert forall k :: i <= k < i + |w| ==> s[k] == w[k - i];
      ghost var left := if |a| > 0 then s[|a| - 1] else ' ';
      ghost var right := if |b| > 0 then s[|a|] else ' ';
      if i + |w| <= |a| {
        assert a[i..i + |w|] == s[i..i + |w|];
        assert OccursAt(a, w, i);
      } else if i >= |a| {
        assert b[i - |a|..i - |a| + |w|] == s[i..i + |w|];
        assert OccursAt(b, w, i - |a|);
      } else {
        // the occurrence would cover both characters at the seam
        assert false;
      }
    }
  }

  /** A string ending in `w` contains it. */
  lemma ContainsSuffix(a: string, w: string)
    ensures Contains(a + w, w)
  {
    assert OccursAt(a + w, w, |a|);
  }

  /** Text of the template's shape holds `w` only inside one of the two
      stamps, when every seam is a character `w` lacks and the fixed pieces
      lack one of its characters. */
  lemma AbsentFromShape(p1: string, p2: string, p3: string, p4: string, stamp: string, w: string, c: char)
    requires c in w && c !in p1 && c !in p2 && c !in p3 && c !in p4
    requires |p1| > 0 && p1[|p1| - 1] !in w
    requires |p2| > 0 && p2[0] !in w && p2[|p2| - 1] !in w
    requires |p3| > 0 && p3[0] !in w
    requires !Contains(stamp, w)
    ensures !Contains(p1 + stamp + p2 + stamp + p3 + p4, w)
  {
    var tail := p3 + p4;
    assert tail[0] == p3[0];
    var a1 := p1 + stamp;
    var a2 := a1 + p2;
    var a3 := a2 + stamp;
    assert p1 + stamp + p2 + stamp + p3 + p4 == a3 + tail;
    ContainsConcat(a3, tail, w);
    MissingChar(tail, w, c);
    assert |a2| > 0 && a2[|a2| - 1] == p2[|p2| - 1];
    ContainsConcat(a2, stamp, w);
    ContainsConcat(a1, p2, w);
    MissingChar(p2, w, c);
    ContainsConcat(p1, stamp, w);
    MissingChar(p1, w, c);
  }

  // ---------------------------------------------------------------------------
  // Properties of the builder

  /** The status line, the server line and the Date label: no `%`, no `I`,
      and the label ends in a space. */
  lemma StatusFacts()
    ensures '%' !in StatusLines && 'I' !in StatusLines
    ensures |StatusLines| > 0 && StatusLines[|StatusLines| - 1] == ' '
  {
    LineFacts();
  }

  /** The header lines of fixed text hold neither a `%` nor an `I`. */
  lemma LineFacts()
    ensures '%' !in StatusLine && 'I' !in StatusLine
    ensures '%' !in ServerLine && 'I' !in ServerLine
    ensures '%' !in TypeLine && 'I' !in TypeLine
    ensures '%' !in LengthLine && 'I' !in LengthLine
  {
    StatusLineFacts();
    ServerLineFacts();
    TypeLineFacts();
    LengthLineFacts();
  }

  lemma StatusLineFacts()
    ensures '%' !in StatusLine && 'I' !in StatusLine
  {
  }

  lemma ServerLineFacts()
    ensures '%' !in ServerLine && 'I' !in ServerLine
  {
  }

  lemma TypeLineFacts()
    ensures '%' !in TypeLine && 'I' !in TypeLine
  {
  }

  lemma LengthLineFacts()
    ensures '%' !in LengthLine && 'I' !in LengthLine
  {
  }

  /** The Last-Modified label: no `%`, no `I`, a line break before it and a
      space after it. */
  lemma ModifiedFacts()
    ensures '%' !in ModifiedField && 'I' !in ModifiedField
    ensures |ModifiedField| > 0 && ModifiedField[0] == '\n' && ModifiedField[|ModifiedField| - 1] == ' '
  {
  }

  /** The content headers and the blank line: no `%`, no `I`, and a line
      break first. */
  lemma ContentFacts()
    ensures '%' !in ContentLines && 'I' !in ContentLines
    ensures |ContentLines| > 0 && ContentLines[0] == '\n'
  {
    LineFacts();
  }

  /** The two bodies: nine characters each, no `%`; only the in-flight one
      has an `I`, and it has neither a space nor a line break. */
  lemma BodyFacts()
    ensures |HealthyBody| == 9 && '%' !in HealthyBody && 'I' !in HealthyBody
    ensures |InFlightBody| == 9 && '%' !in InFlightBody && 'I' in InFlightBody
    ensures ' ' !in InFlightBody && '\n' !in InFlightBody
  {
  }

  /** Text of the template's shape has no `%` when none of its parts has. */
  lemma PercentFree(p1: string, p2: string, p3: string, p4: string, stamp: string)
    requires '%' !in p1 && '%' !in p2 && '%' !in p3 && '%' !in p4 && '%' !in stamp
    ensures '%' !in p1 + stamp + p2 + stamp + p3 + p4
  {
  }

  /** Every in-flight reply trips the writer's stall test. */
  lemma InFlightReplyStalls(date: string)
    ensures Stalls(Fill(InFlightBody, date))
  {
    ContainsSuffix(StatusLines + date + ModifiedField + date + ContentLines, InFlightBody);
  }

  /** A healthy reply never trips the writer's stall test unless the date
      itself spells `IN-FLIGHT`. */
  lemma HealthyReplyDoesNotStall(date: string)
    requires !Contains(date, InFlightBody)
    ensures !Stalls(Fill(HealthyBody, date))
  {
    StatusFacts();
    ModifiedFacts();
    ContentFacts();
    BodyFacts();
    AbsentFromShape(StatusLines, ModifiedField, ContentLines, HealthyBody, date, InFlightBody, 'I');
  }

  /** The writer stalls exactly the replies built for in-flight requests,
      as long as the date itself does not spell `IN-FLIGHT`. */
  lemma StallsIffAsksInFlight(request: string, date: string)
    requires !Contains(date, InFlightBody)
    ensures Stalls(MakeResponse(request, date)) <==> AsksInFlight(request)
  {
    if AsksInFlight(request) {
      InFlightReplyStalls(date);
    } else {
      HealthyReplyDoesNotStall(date);
    }
  }

  /** No placeholder survives in a reply, for any date the clock can format
      (the format has no `%` in its output). */
  lemma NoPlaceholderLeft(request: string, date: string)
    requires '%' !in date
    ensures !Contains(MakeResponse(request, date), Placeholder)
  {
    var body := if AsksInFlight(request) then InFlightBody else HealthyBody;
    StatusFacts();
    ModifiedFacts();
    ContentFacts();
    BodyFacts();
    PercentFree(StatusLines, ModifiedField, ContentLines, body, date);
    assert MakeResponse(request, date) == Fill(body, date);
    MissingChar(MakeResponse(request, date), Placeholder, '%');
  }

  /** Every reply is the header block, stamped, followed by a body of exactly
      the nine characters its `Content-Length: 9` header announces: the
      healthy or the in-flight one. */
  lemma BodyMatchesContentLength(request: string, date: string)
    ensures var r := MakeResponse(request, date);
      && |r| >= 9
      && r == Fill([], date) + r[|r| - 9..]
      && (r[|r| - 9..] == HealthyBody || r[|r| - 9..] == InFlightBody)
  {
    var body := if AsksInFlight(request) then InFlightBody else HealthyBody;
    var r := MakeResponse(request, date);
    assert |body| == 9;
    assert r == Fill([], date) + body;
    assert r[|r| - 9..] == body;
  }
}
