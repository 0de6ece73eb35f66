/** Session cookies of the SAP Business One Service Layer client: parsing
    the login response's `set-cookie` header into a name/value map
    (`extractSessionCookies`) and composing the `Cookie` request header
    that carries the session into the invoice request. Both headers are
    plain data here, as a non-browser `fetch` sees them; a browser hides
    `Set-Cookie` from the script and drops a script-set `Cookie`. */
module Cookies {
  import opened Maybe
  import opened JsString
  import opened Backend

  /** One `name=value` pair read from the header. */
  datatype Entry = Entry(name: string, value: string)

  /** The text of a comma-separated segment that can hold a cookie: the
      trimmed segment up to its first `;`. */
  function NameValue(segment: string): (nv: string)
    ensures ';' !in nv
    ensures |nv| <= |Trim(segment)| && nv == Trim(segment)[..|nv|]
    ensures |nv| < |Trim(segment)| ==> Trim(segment)[|nv|] == ';'
  {
    var trimmed := Trim(segment);
    var pieces := Split(trimmed, ';');
    JoinSplit(trimmed, ';');
    assert trimmed == pieces[0] + (if |pieces| == 1 then [] else [';'] + Join(pieces[1..], ';'));
    pieces[0]
  }

  /** A segment whose trimmed text holds no `;` is all `name=value`. */
  lemma NameValueWhole(segment: string)
    requires ';' !in Trim(segment)
    ensures NameValue(segment) == Trim(segment)
  {
  }

  /** The entry a `name=value` text gives, if any: the name is the text
      before the first `=`, the value the text between the first and the
      second `=`; both must be non-empty before trimming, and both are
      stored trimmed. */
  function PairEntry(nv: string): (r: Option<Entry>)
    ensures r.Some? ==> IsTrimmed(r.value.name) && IsTrimmed(r.value.value)
    ensures r.Some? ==> '=' !in r.value.name && '=' !in r.value.value
    ensures r.Some? && ';' !in nv ==> ';' !in r.value.name && ';' !in r.value.value
    ensures r.Some? ==> nv != [] && (!IsWhitespace(nv[0]) ==> r.value.name != [])
  {
    var parts := Split(nv, '=');
    if |parts| >= 2 && parts[0] != [] && parts[1] != [] then
      JoinSplit(nv, '=');
      assert nv == parts[0] + ['='] + Join(parts[1..], '=');
      PieceAvoids(nv, '=', ';', 0);
      PieceAvoids(nv, '=', ';', 1);
      TrimKeepsAbsence(parts[0], '=');
      TrimKeepsAbsence(parts[1], '=');
      Some(Entry(Trim(parts[0]), Trim(parts[1])))
    else
      None
  }

  /** A character absent from a string is absent from every trimmed piece
      of its split. */
  lemma PieceAvoids(s: string, sep: char, c: char, k: nat)
    requires k < |Split(s, sep)|
    ensures c !in s ==> c !in Trim(Split(s, sep)[k])
  {
    if c !in s {
      JoinSplit(s, sep);
      JoinKeepsPieces(Split(s, sep), sep, c, k);
      TrimKeepsAbsence(Split(s, sep)[k], c);
    }
  }

  /** The entry a comma-separated segment contributes, if any: the entry of
      its `name=value` part. */
  function SegmentEntry(segment: string): (r: Option<Entry>)
    ensures r.Some? ==> Stored(r.value.name, r.value.value)
  {
    var nv := NameValue(segment);
    assert nv != [] ==> !IsWhitespace(nv[0]);
    PairEntry(nv)
  }

  /** `SegmentEntry` in two steps: the `name=value` part, then its pair. */
  lemma SegmentEntryVia(segment: string, nv: string, e: Entry)
    requires NameValue(segment) == nv && PairEntry(nv) == Some(e)
    ensures SegmentEntry(segment) == Some(e)
  {
  }

  /** The shape of every stored pair: a non-empty name, both sides trimmed,
      and neither holding a `=` or a `;`. The value may be empty: a value of
      only whitespace is truthy, so it is stored, trimmed to nothing. */
  predicate Stored(name: string, value: string) {
    && name != [] && IsTrimmed(name) && IsTrimmed(value)
    && '=' !in name && ';' !in name && '=' !in value && ';' !in value
  }

  /** The entry of every segment, in order (`null` for a skipped one). */
  function ParseSegments(segments: seq<string>): (found: seq<Option<Entry>>)
    ensures |found| == |segments|
    ensures forall i :: 0 <= i < |segments| ==> found[i] == SegmentEntry(segments[i])
  {
    if |segments| == 0 then [] else ParseSegments(segments[..|segments| - 1]) + [SegmentEntry(segments[|segments| - 1])]
  }

  /** The map the `forEach` builds from the entries found, starting from
      `{}`: each entry in turn is stored, overwriting an earlier one of the
      same name. Every stored pair is one of the entries found. */
  function Collect(found: seq<Option<Entry>>): (m: map<string, string>)
    ensures |m| <= |found|
    ensures forall k :: k in m ==> Some(Entry(k, m[k])) in found
  {
    if |found| == 0 then map[]
    else
      var before := Collect(found[..|found| - 1]);
      assert forall o :: o in found[..|found| - 1] ==> o in found;
      match found[|found| - 1]
      case None => before
      case Some(e) => before[e.name := e.value]
  }

  /** `extractSessionCookies`: no header, or an empty one, gives `{}`;
      otherwise the header is split on `,` and the entries of the segments
      are collected. Malformed segments are skipped, never an error. */
  function ExtractSessionCookies(setCookie: Option<string>): (m: map<string, string>)
    ensures setCookie.None? || setCookie.value == [] ==> m == map[]
    ensures setCookie.Some? ==> |m| <= |Split(setCookie.value, ',')|
    ensures forall k :: k in m ==> Stored(k, m[k])
  {
    match setCookie
    case None => map[]
    case Some(header) =>
      if header == [] then map[]
      else
        var segments := Split(header, ',');
        var m := Collect(ParseSegments(segments));
        assert forall k :: k in m ==> Stored(k, m[k]) by {
          forall k | k in m ensures Stored(k, m[k]) {
            var i :| 0 <= i < |segments| && ParseSegments(segments)[i] == Some(Entry(k, m[k]));
          }
        }
        m
  }

  /** `ExtractSessionCookies` of a non-empty header, by its segments and
      their entries. */
  lemma ExtractVia(header: string, segments: seq<string>, found: seq<Option<Entry>>)
    requires header != [] && Split(header, ',') == segments && ParseSegments(segments) == found
    ensures ExtractSessionCookies(Some(header)) == Collect(found)
  {
  }

  /** `found` holds an entry named `k`. */
  predicate Names(o: Option<Entry>, k: string) {
    o.Some? && o.value.name == k
  }

  /** Reference description of `Collect`, part one: a name is stored
      exactly when some entry has it. */
  lemma {:induction false} CollectKeys(found: seq<Option<Entry>>, k: string)
    ensures k in Collect(found) <==> exists i :: 0 <= i < |found| && Names(found[i], k)
    decreases |found|
  {
    if |found| > 0 {
      CollectKeys(found[..|found| - 1], k);
      CollectLast(found, k);
      NamesLast(found, found[..|found| - 1], k);
    }
  }

  /** The last entry adds its own name to what the others collect. */
  lemma CollectLast(found: seq<Option<Entry>>, k: string)
    requires |found| > 0
    ensures k in Collect(found) <==> k in Collect(found[..|found| - 1]) || Names(found[|found| - 1], k)
  {
  }

  /** Some entry has the name iff the last one or one of the others has. */
  lemma NamesLast(found: seq<Option<Entry>>, init: seq<Option<Entry>>, k: string)
    requires |found| > 0 && init == found[..|found| - 1]
    ensures (exists i :: 0 <= i < |found| && Names(found[i], k))
        <==> (exists i :: 0 <= i < |init| && Names(init[i], k)) || Names(found[|found| - 1], k)
  {
    if exists i :: 0 <= i < |found| - 1 && Names(init[i], k) {
      var i :| 0 <= i < |found| - 1 && Names(init[i], k);
      assert found[i] == init[i];
    }
    if exists i :: 0 <= i < |found| && Names(found[i], k) {
      var i :| 0 <= i < |found| && Names(found[i], k);
      if i < |found| - 1 {
        assert init[i] == found[i];
      }
    }
  }

  /** Entry `i` of `found` is the last one named `name`, and it gives it
      `value`. */
  predicate LastNamed(found: seq<Option<Entry>>, i: nat, name: string, value: string) {
    && i < |found|
    && found[i] == Some(Entry(name, value))
    && forall j :: i < j < |found| ==> !Names(found[j], name)
  }

  /** An entry that does not have the name keeps the last one named last. */
  lemma LastNamedExtend(found: seq<Option<Entry>>, o: Option<Entry>, i: nat, name: string, value: string)
    requires LastNamed(found, i, name, value) && !Names(o, name)
    ensures LastNamed(found + [o], i, name, value)
  {
    var longer := found + [o];
    forall j | i < j < |longer| ensures !Names(longer[j], name) {
      if j < |found| {
        assert longer[j] == found[j];
      }
    }
  }

  /** Reference description of `Collect`, part two: a stored name holds the
      value of the last entry that has it. */
  lemma {:induction false} CollectLastWins(found: seq<Option<Entry>>, k: string)
    requires k in Collect(found)
    ensures exists i :: LastNamed(found, i, k, Collect(found)[k])
    decreases |found|
  {
    var n := |found| - 1;
    var init := found[..n];
    assert found == init + [found[n]];
    if Names(found[n], k) {
      assert LastNamed(found, n, k, Collect(found)[k]);
    } else {
      assert k in Collect(init) && Collect(found)[k] == Collect(init)[k];
      CollectLastWins(init, k);
      var i :| LastNamed(init, i, k, Collect(init)[k]);
      LastNamedExtend(init, found[n], i, k, Collect(init)[k]);
    }
  }

  /** A name is stored exactly when some comma-separated segment of the
      header defines it. */
  lemma {:induction false} ExtractKeys(header: string, k: string)
    requires header != []
    ensures k in ExtractSessionCookies(Some(header)) <==> exists i :: SegmentDefines(Split(header, ','), i, k)
  {
    if k in ExtractSessionCookies(Some(header)) {
      ExtractKeysDefined(header, k);
    }
    if exists i :: SegmentDefines(Split(header, ','), i, k) {
      var i :| SegmentDefines(Split(header, ','), i, k);
      ExtractKeepsDefined(header, k, i);
    }
  }

  /** Segment `i` of `segments` defines `name`. */
  predicate SegmentDefines(segments: seq<string>, i: nat, name: string) {
    i < |segments| && Names(SegmentEntry(segments[i]), name)
  }

  /** The same facts for the header itself. First: every segment that
      defines a name gets it stored. */
  lemma {:induction false} ExtractKeepsDefined(header: string, k: string, i: nat)
    requires header != []
    requires SegmentDefines(Split(header, ','), i, k)
    ensures k in ExtractSessionCookies(Some(header))
  {
    var found := ParseSegments(Split(header, ','));
    assert ExtractSessionCookies(Some(header)) == Collect(found);
    assert Names(found[i], k);
    CollectKeys(found, k);
  }

  /** Second: nothing else is stored; every stored name comes from a
      segment that defines it. */
  lemma {:induction false} ExtractKeysDefined(header: string, k: string)
    requires header != []
    requires k in ExtractSessionCookies(Some(header))
    ensures exists i :: SegmentDefines(Split(header, ','), i, k)
  {
    var segments := Split(header, ',');
    var found := ParseSegments(segments);
    assert ExtractSessionCookies(Some(header)) == Collect(found);
    CollectKeys(found, k);
    var i :| 0 <= i < |found| && Names(found[i], k);
    assert found[i] == SegmentEntry(segments[i]);
    assert SegmentDefines(segments, i, k);
  }

  /** Segment `i` is the last of `segments` to define `name`, and it gives
      it `value`. */
  predicate LastDefines(segments: seq<string>, i: nat, name: string, value: string) {
    && i < |segments|
    && SegmentEntry(segments[i]) == Some(Entry(name, value))
    && forall j :: i < j < |segments| ==> !Names(SegmentEntry(segments[j]), name)
  }

  /** Third: a stored name holds the value of the last segment that
      defines it. */
  lemma {:induction false} ExtractLastWins(header: string, k: string)
    requires header != []
    requires k in ExtractSessionCookies(Some(header))
    ensures exists i :: LastDefines(Split(header, ','), i, k, ExtractSessionCookies(Some(header))[k])
  {
    var segments := Split(header, ',');
    var found := ParseSegments(segments);
    var m := ExtractSessionCookies(Some(header));
    assert m == Collect(found);
    CollectLastWins(found, k);
    var i :| LastNamed(found, i, k, m[k]);
    LastNamedDefines(segments, i, k, m[k]);
  }

  /** The last entry named `name` comes from the last segment defining it. */
  lemma LastNamedDefines(segments: seq<string>, i: nat, name: string, value: string)
    requires LastNamed(ParseSegments(segments), i, name, value)
    ensures LastDefines(segments, i, name, value)
  {
    var found := ParseSegments(segments);
    forall j | i < j < |segments| ensures !Names(SegmentEntry(segments[j]), name) {
      assert SegmentEntry(segments[j]) == found[j];
    }
  }

  /** Only the text before the first `;` of a segment matters: attributes
      such as `Path=/` or even `ROUTEID=x` after it never produce an entry. */
  lemma AttributesIgnored(cookie: string, attributes: string)
    requires ';' !in cookie
    ensures SegmentEntry(cookie + ";" + attributes) == SegmentEntry(cookie + ";")
  {
    NameValueBeforeSemicolon(cookie, attributes);
    NameValueBeforeSemicolon(cookie, "");
    assert cookie + ";" == cookie + [';'] + "";
  }

  /** The `name=value` part of `cookie;attributes` is `cookie` without its
      leading whitespace. */
  lemma NameValueBeforeSemicolon(cookie: string, attributes: string)
    requires ';' !in cookie
    ensures NameValue(cookie + ";" + attributes) == TrimStart(cookie)
  {
    var segment := cookie + ";" + attributes;
    assert segment == cookie + [';'] + attributes;
    TrimAround(cookie, ';', attributes);
    TrimEndsKeepAbsence(cookie, ';');
    SplitFirst(TrimStart(cookie), ';', TrimEnd(attributes));
  }

  /** A cookie pair the parser can read back: a non-empty trimmed name and
      value, neither holding a separator the parser splits on. */
  predicate WellFormed(e: Entry) {
    && e.name != [] && e.value != []
    && IsTrimmed(e.name) && IsTrimmed(e.value)
    && '=' !in e.name && ';' !in e.name && ',' !in e.name
    && '=' !in e.value && ';' !in e.value && ',' !in e.value
  }

  /** A cookie written without attributes. */
  function Plain(e: Entry): string {
    e.name + "=" + e.value
  }

  /** A `set-cookie` segment carrying `e`, followed by attributes. */
  function Render(e: Entry, attributes: string): string {
    Plain(e) + ";" + attributes
  }

  /** A well-formed cookie reads back as itself, whatever attributes follow. */
  lemma ParseRendered(e: Entry, attributes: string)
    requires WellFormed(e)
    ensures SegmentEntry(Render(e, attributes)) == Some(e)
  {
    TrimTrimmed(e.name);
    TrimTrimmed(e.value);
    SegmentEntryOf(e.name, e.value, attributes);
  }

  /** A well-formed pair, followed by nothing or by a second `=`, gives
      back that pair. */
  lemma PairOfWellFormed(e: Entry, rest: string)
    requires WellFormed(e)
    requires rest == [] || rest[0] == '='
    ensures PairEntry(Plain(e) + rest) == Some(e)
  {
    PairEntryOf(e.name, e.value, rest);
    TrimTrimmed(e.name);
    TrimTrimmed(e.value);
  }

  /** `name=value`, followed by nothing or by another `=`, stores the
      trimmed text before the first `=` under the trimmed text between the
      first and the second `=`, whenever neither is empty before trimming. */
  lemma PairEntryOf(name: string, value: string, rest: string)
    requires name != [] && value != []
    requires '=' !in name && '=' !in value
    requires rest == [] || rest[0] == '='
    ensures PairEntry(name + "=" + value + rest) == Some(Entry(Trim(name), Trim(value)))
  {
    SplitPair(name, value, rest);
  }

  /** A segment `name=value;attributes` stores `name.trim()` under
      `value.trim()` when the name has some non-whitespace text and the
      value is not empty; a value of only whitespace is stored as the empty
      string. */
  lemma SegmentEntryOf(name: string, value: string, attributes: string)
    requires '=' !in name && '=' !in value && ';' !in name && ';' !in value
    requires Trim(name) != [] && value != []
    ensures SegmentEntry(name + "=" + value + ";" + attributes) == Some(Entry(Trim(name), Trim(value)))
  {
    var cookie := name + "=" + value;
    assert ';' !in cookie;
    NameValueBeforeSemicolon(cookie, attributes);
    assert cookie == name + ['='] + value;
    TrimStartAround(name, '=', value);
    TrimEmptyIffBlank(name);
    TrimEndsKeepAbsence(name, '=');
    PairEntryOf(TrimStart(name), value, "");
    assert TrimStart(name) + "=" + value + "" == TrimStart(name) + ['='] + value;
    TrimStartThenTrim(name);
    SegmentEntryVia(cookie + ";" + attributes, TrimStart(cookie), Entry(Trim(name), Trim(value)));
  }

  /** A segment `name=value` without attributes stores `name.trim()` under
      `value.trim()` when both have some non-whitespace text. */
  lemma SegmentEntryOfPlain(name: string, value: string)
    requires '=' !in name && '=' !in value && ';' !in name && ';' !in value
    requires Trim(name) != [] && Trim(value) != []
    ensures SegmentEntry(name + "=" + value) == Some(Entry(Trim(name), Trim(value)))
  {
    var segment := name + "=" + value;
    assert segment == name + ['='] + value;
    TrimAround(name, '=', value);
    TrimKeepsAbsence(segment, ';');
    NameValueWhole(segment);
    TrimEmptyIffBlank(name);
    TrimEmptyIffBlank(value);
    TrimEndsKeepAbsence(name, '=');
    TrimEndsKeepAbsence(value, '=');
    PairEntryOf(TrimStart(name), TrimEnd(value), "");
    assert TrimStart(name) + "=" + TrimEnd(value) + "" == TrimStart(name) + ['='] + TrimEnd(value);
    TrimStartThenTrim(name);
    TrimEndThenTrim(value);
    SegmentEntryVia(segment, Trim(segment), Entry(Trim(name), Trim(value)));
  }

  /** The first two pieces of `name=value` followed by nothing or by `=`. */
  lemma SplitPair(name: string, value: string, rest: string)
    requires '=' !in name && '=' !in value
    requires rest == [] || rest[0] == '='
    ensures var parts := Split(name + "=" + value + rest, '=');
      |parts| >= 2 && parts[0] == name && parts[1] == value
  {
    assert name + "=" + value + rest == name + ['='] + (value + rest);
    SplitFirst(name, '=', value + rest);
    if rest == [] {
      assert value + rest == value;
      SplitNoSeparator(value, '=');
    } else {
      assert value + rest == value + ['='] + rest[1..];
      SplitFirst(value, '=', rest[1..]);
    }
  }

  /** Whitespace in front of a segment, as after the `, ` that joins
      several `set-cookie` values, changes nothing. */
  lemma {:induction false} PaddingIgnored(pad: string, segment: string)
    requires AllWhitespace(pad)
    ensures SegmentEntry(pad + segment) == SegmentEntry(segment)
  {
    TrimSkipsPadding(pad, segment);
  }

  /** A well-formed cookie with no attributes reads back as itself. */
  lemma ParsePlain(e: Entry)
    requires WellFormed(e)
    ensures SegmentEntry(Plain(e)) == Some(e)
  {
    var cookie := Plain(e);
    PlainIsTrimmed(e);
    SplitNoSeparator(cookie, ';');
    assert NameValue(cookie) == cookie;
    PairOfWellFormed(e, "");
    assert cookie + "" == cookie;
  }

  /** A well-formed pair written out has nothing to trim. */
  lemma PlainIsTrimmed(e: Entry)
    requires WellFormed(e)
    ensures Trim(Plain(e)) == Plain(e)
  {
    assert e.name + "=" + e.value == e.name + ['='] + e.value;
    TrimAround(e.name, '=', e.value);
    assert e.name[0..] == e.name && e.value[..|e.value|] == e.value;
  }

  /** The map a sequence of entries denotes when later entries overwrite
      earlier ones of the same name. */
  function ToMap(es: seq<Entry>): map<string, string> {
    if |es| == 0 then map[] else ToMap(es[..|es| - 1])[es[|es| - 1].name := es[|es| - 1].value]
  }

  /** The segments of a `set-cookie` header carrying `es`, each with its
      attributes `attributes[i]`. */
  function RenderAll(es: seq<Entry>, attributes: seq<string>): (segments: seq<string>)
    requires |attributes| == |es|
    ensures |segments| == |es|
    ensures forall i :: 0 <= i < |es| ==> segments[i] == Render(es[i], attributes[i])
  {
    if |es| == 0 then [] else RenderAll(es[..|es| - 1], attributes[..|es| - 1]) + [Render(es[|es| - 1], attributes[|es| - 1])]
  }

  /** Parsing rendered segments gives the map of the rendered entries: the
      parser keeps every well-formed pair and the last of equal names. */
  lemma {:induction false} CollectRendered(es: seq<Entry>, attributes: seq<string>)
    requires |attributes| == |es|
    requires forall i :: 0 <= i < |es| ==> WellFormed(es[i])
    ensures Collect(ParseSegments(RenderAll(es, attributes))) == ToMap(es)
    decreases |es|
  {
    if |es| > 0 {
      var n := |es| - 1;
      var segments := RenderAll(es, attributes);
      assert segments[..n] == RenderAll(es[..n], attributes[..n]);
      assert ParseSegments(segments)[..n] == ParseSegments(segments[..n]);
      CollectRendered(es[..n], attributes[..n]);
      ParseRendered(es[n], attributes[n]);
    }
  }

  /** Round trip of the whole header: a `set-cookie` value listing
      well-formed cookies separated by `,`, whose attributes hold no `,`,
      parses to the map of those cookies. */
  lemma {:induction false} HeaderRoundTrip(es: seq<Entry>, attributes: seq<string>)
    requires |es| >= 1 && |attributes| == |es|
    requires forall i :: 0 <= i < |es| ==> WellFormed(es[i]) && ',' !in attributes[i]
    ensures ExtractSessionCookies(Some(Join(RenderAll(es, attributes), ','))) == ToMap(es)
  {
    var segments := RenderAll(es, attributes);
    assert forall i :: 0 <= i < |segments| ==> ',' !in segments[i] by {
      forall i | 0 <= i < |segments| ensures ',' !in segments[i] {
        assert segments[i] == es[i].name + "=" + es[i].value + ";" + attributes[i];
      }
    }
    SplitJoin(segments, ',');
    assert |Join(segments, ',')| >= |segments[0]| > 0;
    CollectRendered(es, attributes);
  }

  // ---- The `Cookie` request header ----------------------------------------

  const SessionPrefix := "B1SESSION="
  const RouteSeparator := "; ROUTEID="

  /** `loginData.cookies.ROUTEID` when it is truthy: present and non-empty. */
  function RouteId(cookies: map<string, string>): (r: Option<string>)
    ensures r.Some? <==> "ROUTEID" in cookies && cookies["ROUTEID"] != []
    ensures r.Some? ==> r.value == cookies["ROUTEID"]
  {
    if "ROUTEID" in cookies && cookies["ROUTEID"] != [] then Some(cookies["ROUTEID"]) else None
  }

  /** How a template literal renders the session id: a login body without
      `SessionId` yields the text `undefined`, a `null` one the text
      `null`. */
  function SessionText(sessionId: SessionField): (t: string)
    ensures sessionId.Id? ==> t == sessionId.id
    ensures sessionId.Absent? ==> t == "undefined"
    ensures sessionId.Null? ==> t == "null"
  {
    match sessionId
    case Id(id) => id
    case Absent => "undefined"
    case Null => "null"
  }

  /** The `Cookie` header of the invoice request: `B1SESSION=<id>`, then
      `; ROUTEID=<route>` when the route cookie is truthy. */
  function CookieHeader(sessionId: SessionField, cookies: map<string, string>): (h: string)
    ensures |h| >= |SessionPrefix| + |SessionText(sessionId)|
    ensures h[..|SessionPrefix|] == SessionPrefix
    ensures h[|SessionPrefix|..|SessionPrefix| + |SessionText(sessionId)|] == SessionText(sessionId)
  {
    var header := SessionPrefix + SessionText(sessionId);
    match RouteId(cookies)
    case Some(route) => header + RouteSeparator + route
    case None => header
  }

  /** What a server reads from a `Cookie` header of this shape. */
  datatype SessionCookies = SessionCookies(session: string, route: Option<string>)

  /** Reads a header `B1SESSION=<id>` or `B1SESSION=<id>; ROUTEID=<route>`;
      anything else is `None`. */
  function ParseCookieHeader(h: string): Option<SessionCookies> {
    var pieces := Split(h, ';');
    var first := pieces[0];
    var route := RouteSeparator[1..];
    if |pieces| > 2 || |first| < |SessionPrefix| || first[..|SessionPrefix|] != SessionPrefix then None
    else if |pieces| == 1 then Some(SessionCookies(first[|SessionPrefix|..], None))
    else if |pieces[1]| < |route| || pieces[1][..|route|] != route then None
    else Some(SessionCookies(first[|SessionPrefix|..], Some(pieces[1][|route|..])))
  }

  /** The composed header carries exactly the session id and, if and only
      if the route cookie is truthy, that route. */
  lemma CookieHeaderRoundTrip(sessionId: SessionField, cookies: map<string, string>)
    requires ';' !in SessionText(sessionId)
    requires RouteId(cookies).Some? ==> ';' !in RouteId(cookies).value
    ensures ParseCookieHeader(CookieHeader(sessionId, cookies))
         == Some(SessionCookies(SessionText(sessionId), RouteId(cookies)))
  {
    match RouteId(cookies)
    case Some(route) => RoutedHeaderReads(SessionText(sessionId), route);
    case None => PlainHeaderReads(SessionText(sessionId));
  }

  /** `B1SESSION=<text>` reads back as the session alone. */
  lemma PlainHeaderReads(text: string)
    requires ';' !in text
    ensures ParseCookieHeader(SessionPrefix + text) == Some(SessionCookies(text, None))
  {
    var header := SessionPrefix + text;
    assert ';' !in header;
    assert header[|SessionPrefix|..] == text;
    SplitNoSeparator(header, ';');
  }

  /** `B1SESSION=<text>; ROUTEID=<route>` reads back as the session and
      the route. */
  lemma RoutedHeaderReads(text: string, route: string)
    requires ';' !in text && ';' !in route
    ensures ParseCookieHeader(SessionPrefix + text + RouteSeparator + route) == Some(SessionCookies(text, Some(route)))
  {
    var header := SessionPrefix + text;
    var tail := RouteSeparator[1..] + route;
    assert ';' !in header;
    assert header[|SessionPrefix|..] == text;
    assert header + RouteSeparator + route == header + [';'] + tail;
    assert ';' !in tail;
    SplitFirst(header, ';', tail);
    SplitNoSeparator(tail, ';');
    assert tail[|RouteSeparator[1..]|..] == route;
  }

  /** For cookies read by `ExtractSessionCookies` the route can never hide
      a `;`, so the header round trip needs only a `;`-free session id. */
  lemma {:induction false} ExtractedRouteRoundTrip(sessionId: SessionField, setCookie: Option<string>)
    requires ';' !in SessionText(sessionId)
    ensures ParseCookieHeader(CookieHeader(sessionId, ExtractSessionCookies(setCookie)))
         == Some(SessionCookies(SessionText(sessionId), RouteId(ExtractSessionCookies(setCookie))))
  {
    CookieHeaderRoundTrip(sessionId, ExtractSessionCookies(setCookie));
  }
}
