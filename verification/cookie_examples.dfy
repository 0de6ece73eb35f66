/** How the parser treats the `set-cookie` shapes it meets: a route written
    as an attribute, the Service Layer's own shape, blank values, values
    holding `=`, and malformed segments. */
module CookieExamples {
  import opened Maybe
  import opened JsString
  import opened Backend
  import opened Cookies

  /** Two comma-separated segments split apart. */
  lemma SplitTwo(first: string, second: string)
    requires ',' !in first && ',' !in second
    ensures Split(first + ", " + second, ',') == [first, " " + second]
  {
    assert first + ", " + second == first + [','] + (" " + second);
    SplitFirst(first, ',', " " + second);
    SplitNoSeparator(" " + second, ',');
  }

  /** The entries of two segments. */
  lemma ParseTwo(first: string, second: string)
    ensures ParseSegments([first, second]) == [SegmentEntry(first), SegmentEntry(second)]
  {
    assert [first, second][..1] == [first];
  }

  /** Collecting two entries. */
  lemma CollectTwo(x: Entry, y: Entry)
    ensures Collect([Some(x), Some(y)]) == map[x.name := x.value][y.name := y.value]
  {
    assert [Some(x), Some(y)][..1] == [Some(x)];
  }

  /** A header of two comma-separated segments gives the entries of the
      two segments, the second overwriting the first on equal names. */
  lemma {:induction false} TwoSegments(first: string, second: string, x: Entry, y: Entry)
    requires ',' !in first && ',' !in second
    requires SegmentEntry(first) == Some(x) && SegmentEntry(second) == Some(y)
    ensures ExtractSessionCookies(Some(first + ", " + second)) == map[x.name := x.value][y.name := y.value]
  {
    var header := first + ", " + second;
    SplitTwo(first, second);
    PaddingIgnored(" ", second);
    ParseTwo(first, " " + second);
    CollectTwo(x, y);
    ExtractVia(header, [first, " " + second], [Some(x), Some(y)]);
  }

  /** A cookie that follows a `;` inside a segment is an attribute and is
      dropped, while the next comma-separated segment is an entry of its
      own. */
  lemma AttributeCookieDropped(session: Entry, route: Entry, next: Entry)
    requires WellFormed(session) && WellFormed(route) && WellFormed(next)
    ensures ExtractSessionCookies(Some(Render(session, " " + Plain(route)) + ", " + Plain(next)))
         == map[session.name := session.value][next.name := next.value]
  {
    var attributes := " " + Plain(route);
    PlainAvoidsComma(route);
    assert ',' !in attributes;
    RenderAvoidsComma(session, attributes);
    PlainAvoidsComma(next);
    ParseRendered(session, attributes);
    ParsePlain(next);
    TwoSegments(Render(session, attributes), Plain(next), session, next);
  }

  /** A well-formed cookie written out holds no `,`. */
  lemma PlainAvoidsComma(e: Entry)
    requires WellFormed(e)
    ensures ',' !in Plain(e)
  {
  }

  /** A well-formed cookie with comma-free attributes holds no `,`. */
  lemma RenderAvoidsComma(e: Entry, attributes: string)
    requires WellFormed(e) && ',' !in attributes
    ensures ',' !in Render(e, attributes)
  {
  }

  /** The header `B1SESSION=abc; ROUTEID=xyz, Path=/` gives `B1SESSION` and
      `Path`, not `ROUTEID`. */
  lemma RouteAfterSemicolonDropped()
    ensures ExtractSessionCookies(Some("B1SESSION=abc; ROUTEID=xyz, Path=/"))
         == map["B1SESSION" := "abc", "Path" := "/"]
  {
    var session, route, next := Entry("B1SESSION", "abc"), Entry("ROUTEID", "xyz"), Entry("Path", "/");
    LiteralHeader();
    LiteralEntries();
    AttributeCookieDropped(session, route, next);
  }

  /** The literal header is the rendering of its three cookies. */
  lemma LiteralHeader()
    ensures Render(Entry("B1SESSION", "abc"), " " + Plain(Entry("ROUTEID", "xyz"))) + ", " + Plain(Entry("Path", "/"))
         == "B1SESSION=abc; ROUTEID=xyz, Path=/"
  {
  }

  /** The three literal cookies are well formed. */
  lemma LiteralEntries()
    ensures WellFormed(Entry("B1SESSION", "abc"))
    ensures WellFormed(Entry("ROUTEID", "xyz"))
    ensures WellFormed(Entry("Path", "/"))
  {
  }

  /** The shape a Service Layer login answers with, each cookie in its own
      comma-separated segment and attributes after `;`: both the session and
      the route are found, and the route reaches the `Cookie` header. */
  lemma ServiceLayerHeader(session: Entry, route: Entry, sessionAttributes: string, routeAttributes: string)
    requires WellFormed(session) && WellFormed(route)
    requires session.name == "B1SESSION" && route.name == "ROUTEID"
    requires ',' !in sessionAttributes && ',' !in routeAttributes
    ensures var cookies := ExtractSessionCookies(Some(Render(session, sessionAttributes) + ", " + Render(route, routeAttributes)));
      && cookies == map["B1SESSION" := session.value, "ROUTEID" := route.value]
      && CookieHeader(Id(session.value), cookies) == "B1SESSION=" + session.value + "; ROUTEID=" + route.value
  {
    ParseRendered(session, sessionAttributes);
    ParseRendered(route, routeAttributes);
    TwoSegments(Render(session, sessionAttributes), Render(route, routeAttributes), session, route);
  }

  /** Spaces around the name and around the value, as in ` a = b `, are
      trimmed off both. */
  lemma SpacedPairTrimmed(e: Entry)
    requires WellFormed(e)
    ensures SegmentEntry((" " + e.name + " ") + "=" + (" " + e.value + " ")) == Some(e)
  {
    var name, value := " " + e.name + " ", " " + e.value + " ";
    TrimPadded(" ", e.name, " ");
    TrimPadded(" ", e.value, " ");
    SpacedAvoids(e.name, '=');
    SpacedAvoids(e.name, ';');
    SpacedAvoids(e.value, '=');
    SpacedAvoids(e.value, ';');
    SegmentEntryOfPlain(name, value);
  }

  /** Padding with spaces adds no other character. */
  lemma SpacedAvoids(x: string, c: char)
    requires c !in x && c != ' '
    ensures c !in " " + x + " "
  {
  }

  /** A space before the `;`, as in `B1SESSION=abc ;Path=/`, is trimmed off
      the value. */
  lemma SpaceBeforeAttributesTrimmed(e: Entry, attributes: string)
    requires WellFormed(e)
    ensures SegmentEntry(e.name + "=" + (e.value + " ") + ";" + attributes) == Some(e)
  {
    TrimTrimmed(e.name);
    TrimPadded("", e.value, " ");
    assert "" + e.value + " " == e.value + " ";
    SegmentEntryOf(e.name, e.value + " ", attributes);
  }

  /** A value of only whitespace is truthy, so it is stored, trimmed to the
      empty string. */
  lemma BlankValueStoredEmpty(name: string, blank: string, attributes: string)
    requires WellFormed(Entry(name, "x"))
    requires blank != [] && AllWhitespace(blank)
    ensures SegmentEntry(name + "=" + blank + ";" + attributes) == Some(Entry(name, ""))
  {
    var cookie := name + "=" + blank;
    BlankPair(name, blank);
    assert ';' !in cookie by {
      assert !IsWhitespace(';');
    }
    TrimStartNoop(cookie);
    NameValueBeforeSemicolon(cookie, attributes);
  }

  /** `name=<blank>` gives the name with an empty value. */
  lemma BlankPair(name: string, blank: string)
    requires WellFormed(Entry(name, "x"))
    requires blank != [] && AllWhitespace(blank)
    ensures PairEntry(name + "=" + blank) == Some(Entry(name, ""))
  {
    assert '=' !in blank by {
      assert !IsWhitespace('=');
    }
    assert name + "=" + blank == name + ['='] + blank;
    SplitFirst(name, '=', blank);
    SplitNoSeparator(blank, '=');
    TrimTrimmed(name);
    TrimSkipsPadding(blank, "");
    assert blank + "" == blank;
  }

  /** A blank route is not sent. */
  lemma BlankRouteNotSent(sessionId: SessionField)
    ensures CookieHeader(sessionId, map["ROUTEID" := ""]) == SessionPrefix + SessionText(sessionId)
  {
  }

  /** A `null` session id is sent as the text `null`, an absent one as
      `undefined`. */
  lemma MissingSessionIdSent(cookies: map<string, string>)
    requires RouteId(cookies).None?
    ensures CookieHeader(Null, cookies) == "B1SESSION=null"
    ensures CookieHeader(Absent, cookies) == "B1SESSION=undefined"
  {
  }

  /** The value ends at the second `=`: `name=value=rest` stores `value`. */
  lemma ValueEndsAtSecondEquals(e: Entry, rest: string)
    requires WellFormed(e)
    requires ';' !in rest
    ensures SegmentEntry(Plain(e) + "=" + rest) == Some(e)
  {
    var segment := Plain(e) + "=" + rest;
    var tail := TrimEnd(rest);
    NameValueOfPlainThenEquals(e, rest);
    PairOfWellFormed(e, "=" + tail);
    ConcatAssoc(Plain(e), "=", tail);
    SegmentEntryVia(segment, Plain(e) + "=" + tail, e);
  }

  /** The `name=value` part of `name=value=rest` keeps the whole text,
      trimmed at the end. */
  lemma NameValueOfPlainThenEquals(e: Entry, rest: string)
    requires WellFormed(e)
    requires ';' !in rest
    ensures NameValue(Plain(e) + "=" + rest) == Plain(e) + "=" + TrimEnd(rest)
  {
    var tail := TrimEnd(rest);
    TrimPlainThenEquals(e, rest);
    TrimEndsKeepAbsence(rest, ';');
    assert ';' !in Plain(e) + "=" + tail;
    NameValueWhole(Plain(e) + "=" + rest);
  }

  /** Trimming `name=value=rest` only trims the end of `rest`. */
  lemma TrimPlainThenEquals(e: Entry, rest: string)
    requires WellFormed(e)
    ensures Trim(Plain(e) + "=" + rest) == Plain(e) + "=" + TrimEnd(rest)
  {
    assert Plain(e) + "=" + rest == Plain(e) + ['='] + rest;
    TrimAround(Plain(e), '=', rest);
    assert Plain(e)[0] == e.name[0];
    TrimStartNoop(Plain(e));
  }

  /** A segment whose `name=value` part starts with `=` has no name and is
      skipped. */
  lemma EmptyNameSkipped(rest: string)
    ensures PairEntry("=" + rest) == None
  {
    assert "=" + rest == [] + ['='] + rest;
    SplitFirst([], '=', rest);
  }

  /** A segment whose value is empty, as in `name=` or `name==rest`, is
      skipped. */
  lemma EmptyValueSkipped(name: string, rest: string)
    requires '=' !in name
    requires rest == [] || rest[0] == '='
    ensures PairEntry(name + "=" + rest) == None
  {
    assert name + "=" + rest == name + ['='] + rest;
    SplitFirst(name, '=', rest);
    if rest == [] {
      SplitNoSeparator(rest, '=');
    } else {
      assert rest == [] + ['='] + rest[1..];
      SplitFirst([], '=', rest[1..]);
    }
  }

  /** A segment without any `=` is skipped. */
  lemma NoEqualsSkipped(segment: string)
    requires '=' !in segment
    ensures SegmentEntry(segment) == None
  {
    TrimKeepsAbsence(segment, '=');
    PieceAvoidsRaw(Trim(segment), ';', '=');
    SplitNoSeparator(NameValue(segment), '=');
  }

  /** The first piece of a split holds no character the string lacks. */
  lemma PieceAvoidsRaw(s: string, sep: char, c: char)
    requires c !in s
    ensures c !in Split(s, sep)[0]
  {
    JoinSplit(s, sep);
    JoinKeepsPieces(Split(s, sep), sep, c, 0);
  }
}
