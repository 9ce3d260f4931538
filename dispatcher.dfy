/**
 * The command dispatcher behind `/R/<command>?format=raw|pretty`: take the
 * command out of the path, wrap it for pretty printing, check it against the
 * denylist, find the caller's R session, submit the command and format the
 * reply, paging the values first when R tagged the reply as paged.
 *
 * The asynchronous callback becomes an argument: `reply` is what the session
 * hands back for the submitted command. Percent-decoding, JSON serialisation
 * and the token hash are the caller's functions (`Host`).
 */
module Dispatcher {
  import opened Strings
  import CommandFilter
  import opened PageRegistry

  /** An attribute value of an R reply: a string or an array of strings.
      Both are compared with JavaScript's loose `==`. */
  datatype AttrValue = Text(s: string) | List(items: seq<string>)

  /** A reply from the R session. `values` and `attributes` are what R
      returned; `indexed` is the reply read as an array (`rResp.length`,
      `rResp[0]`), which the pretty format consults. */
  datatype RReply = RReply(values: seq<string>, attributes: map<string, AttrValue>, indexed: seq<string>)

  /** The request as the URL parser hands it over: the URL and the `format`
      query parameter, if any. */
  datatype Request = Request(url: string, format: Option<string>)

  /** The library functions the handler calls: `QUERY.unescape`,
      `JSON.stringify` and the hash behind page tokens. */
  datatype Host = Host(unescape: string -> string, stringify: RReply -> string, hash: string -> string)

  const DefaultFormat: string := "raw"

  /** `url.query.format || defaultReturnFormat`: an absent or empty
      parameter means raw. */
  function Format(format: Option<string>): (f: string)
    ensures f != "" && (format.Some? && format.value != "" ==> f == format.value)
    ensures format.None? || format.value == "" ==> f == DefaultFormat
  {
    if format.None? || format.value == "" then DefaultFormat else format.value
  }

  predicate IsPretty(req: Request) {
    Format(req.format) == "pretty"
  }

  /** The capture-and-print expression a pretty request sends instead of
      the command itself. */
  function PrettyWrap(cmd: string): (w: string)
    ensures |w| > |cmd| && w[0] == 'p'
  {
    "paste(capture.output(print(" + cmd + ")),collapse=\"\\n\")"
  }

  /** The command segment of an `/R/` URL: the third piece of its path. */
  function Segment(url: string): (seg: string)
    requires "/R/" <= url
    ensures '/' !in seg && '?' !in seg
  {
    var parts := PathParts(url);
    CommandPathHasSegment(url);
    parts[2]
  }

  /** An `/R/` URL always has a third path piece. */
  lemma CommandPathHasSegment(url: string)
    requires "/R/" <= url
    ensures |PathParts(url)| >= 3
  {
    var rest := url[3..];
    assert url == "/R/" + rest;
    BeforeQueryUnderPrefix("/R/", rest);
    assert "/R/" + BeforeQuery(rest) == "/" + "R" + "/" + BeforeQuery(rest);
    SplitUnderDirectory("R", BeforeQuery(rest));
  }

  /** `/R/<segment>` yields the segment, whether the URL ends there, goes
      on with a query, or goes on with further path pieces (`/R/x/2` submits
      `x`). */
  lemma SegmentOfCommandUrl(segment: string, rest: string)
    requires '/' !in segment && '?' !in segment
    requires rest == "" || rest[0] == '?' || rest[0] == '/'
    ensures "/R/" <= "/R/" + segment + rest
    ensures Segment("/R/" + segment + rest) == segment
  {
    var prefix := "/R/" + segment;
    BeforeQueryAfterPrefix(prefix, rest);
    var tail := BeforeQuery(rest);
    assert prefix + tail == "/" + "R" + "/" + (segment + tail);
    SplitThirdPiece("R", segment, tail);
  }

  /** The text the filter sees and the session receives: the decoded
      segment in raw format, and in pretty format that segment wrapped by
      `PrettyWrap`, which the filter never rejects. */
  function Command(req: Request, host: Host): (c: string)
    requires "/R/" <= req.url
    ensures !IsPretty(req) ==> c == host.unescape(Segment(req.url))
    ensures IsPretty(req) ==> c == PrettyWrap(host.unescape(Segment(req.url))) && !CommandFilter.IsRestricted(c)
  {
    PrettyNeverRestricted(host.unescape(Segment(req.url)));
    var cmd := host.unescape(Segment(req.url));
    if IsPretty(req) then PrettyWrap(cmd) else cmd
  }

  /** What the handler decides before any reply from R. */
  datatype Decision = Forbidden | NoSession | Submit(command: string)

  /** Filter, then session lookup. `sessionFound` is whether
      `getRConnection(sid, false)` returned a connection. */
  function Decide(req: Request, host: Host, sessionFound: bool): (d: Decision)
    requires "/R/" <= req.url
    ensures d.Forbidden? <==> CommandFilter.IsRestricted(Command(req, host))
    ensures d.NoSession? <==> !CommandFilter.IsRestricted(Command(req, host)) && !sessionFound
    ensures d.Submit? ==> sessionFound && !CommandFilter.IsRestricted(d.command)
    ensures d.Submit? ==> d.command == Command(req, host)
  {
    var command := Command(req, host);
    if CommandFilter.IsRestricted(command) then Forbidden
    else if !sessionFound then NoSession
    else Submit(command)
  }

  /** Whatever is wrapped, the pretty expression begins with `p`, so the
      filter never rejects it. */
  lemma PrettyNeverRestricted(cmd: string)
    ensures !CommandFilter.IsRestricted(PrettyWrap(cmd))
  {
    var w := PrettyWrap(cmd);
    assert AllSpace(w[..0]);
    CommandFilter.UnrestrictedByFirstChar(w, 0);
  }

  /** A pretty request is never forbidden; a raw one is forbidden exactly
      when the decoded command is restricted. */
  lemma ForbiddenOnlyWhenRaw(req: Request, host: Host, sessionFound: bool)
    requires "/R/" <= req.url
    ensures Decide(req, host, sessionFound).Forbidden? <==>
              !IsPretty(req) && CommandFilter.IsRestricted(host.unescape(Segment(req.url)))
  {
  }

  /** `rResp.attributes.class[0] == 'RNodePager'`: only an array whose first
      element is the tag qualifies; a string's first character never does. */
  predicate IsPaged(reply: RReply): (r: bool)
    ensures r <==>
              "class" in reply.attributes && reply.attributes["class"].List?
              && reply.attributes["class"].items != [] && reply.attributes["class"].items[0] == "RNodePager"
  {
    && "class" in reply.attributes
    && match reply.attributes["class"]
       case Text(s) => s != "" && (assert |[s[0]]| != |"RNodePager"|; [s[0]] == "RNodePager")
       case List(items) => items != [] && items[0] == "RNodePager"
  }

  /** `value == t` under JavaScript's loose equality against a string: an
      array is first turned into the comma-joined text of its elements. */
  predicate LooseEquals(value: AttrValue, t: string) {
    match value
    case Text(s) => s == t
    case List(items) => Join(items, ',') == t
  }

  /** Only the string "TRUE" and the one-element array holding it are
      loosely equal to "TRUE": a longer array joins to a text with a comma. */
  lemma LooselyTrue(value: AttrValue)
    ensures LooseEquals(value, "TRUE") <==> value in {Text("TRUE"), List(["TRUE"])}
  {
    if value.List? {
      var items := value.items;
      if |items| >= 2 {
        var joined := Join(items, ',');
        assert joined == items[0] + [','] + Join(items[1..], ',');
        assert joined[|items[0]|] == ',';
        assert ',' in joined && ',' !in "TRUE";
      } else if |items| == 1 {
        assert items == [items[0]] && Join(items, ',') == items[0];
      }
    }
  }

  /** `rResp.attributes['delete'] == "TRUE"`: set by the string "TRUE" or by
      the one-element array holding it, and by nothing else. */
  predicate DeleteFlag(attributes: map<string, AttrValue>): (r: bool)
    ensures r <==> "delete" in attributes && attributes["delete"] in {Text("TRUE"), List(["TRUE"])}
  {
    "delete" in attributes && (LooselyTrue(attributes["delete"]); LooseEquals(attributes["delete"], "TRUE"))
  }

  /** The reply after the pager ran on it, if it was tagged as paged. */
  function Paged(reply: RReply, hash: string -> string, clock: seq<nat>): (r: RReply)
    requires |clock| == |reply.values|
    ensures |r.values| == |reply.values| && r.attributes == reply.attributes && r.indexed == reply.indexed
    ensures !IsPaged(reply) ==> r == reply
    ensures IsPaged(reply) ==> r.values == PageKeys(hash, reply.values, clock)
  {
    if IsPaged(reply) then reply.(values := PageKeys(hash, reply.values, clock)) else reply
  }

  /** How a command request ends: 403, 500, or 200 with a body. */
  datatype Outcome = Status403 | Status500 | Status200(body: string)

  /** What `handleR` promises: the outcome follows `Decide`; the command
      handed to the session is the decided one, and only on the 200 path;
      the body is the serialised (possibly paged) reply or, in pretty mode,
      the first element of the reply read as an array, when it has one; the
      registry goes from `before` to `after` only by recording the values
      of a submitted command's paged reply. */
  predicate AnswersAsDecided(req: Request, host: Host, sessionFound: bool, reply: RReply, clock: seq<nat>,
                             before: map<string, Slot>, after: map<string, Slot>,
                             outcome: Outcome, submitted: Option<string>)
    requires "/R/" <= req.url && |clock| == |reply.values|
  {
    var d := Decide(req, host, sessionFound);
    && (outcome.Status403? <==> d.Forbidden?)
    && (outcome.Status500? <==> d.NoSession?)
    && (submitted.Some? <==> d.Submit?)
    && (submitted.Some? ==> submitted.value == d.command)
    && (outcome.Status200? ==>
          var answered := Paged(reply, host.hash, clock);
          outcome.body == if IsPretty(req) && answered.indexed != [] then answered.indexed[0]
                          else host.stringify(answered))
    && after == if submitted.Some? && IsPaged(reply)
                then RegisterAll(before, reply.values, PageKeys(host.hash, reply.values, clock),
                                 DeleteFlag(reply.attributes))
                else before
  }

  /** `handleR`: `reply` is what the session answers if the command is
      submitted, `clock` the clock readings the pager takes. Returns the
      outcome and the command submitted to the session, if any. The body of
      a 200 is the serialised (possibly paged) reply or, in pretty mode, the
      first element of the reply read as an array, when it has one. */
  method HandleR(registry: Registry, req: Request, host: Host, sessionFound: bool, reply: RReply, clock: seq<nat>)
    returns (outcome: Outcome, submitted: Option<string>)
    requires "/R/" <= req.url
    requires |clock| == |reply.values|
    modifies registry
    ensures AnswersAsDecided(req, host, sessionFound, reply, clock, old(registry.pageFiles), registry.pageFiles,
                             outcome, submitted)
  {
    var parts := PathParts(req.url);
    CommandPathHasSegment(req.url);
    var request := host.unescape(parts[2]);
    var format := Format(req.format);
    if format == "pretty" {
      request := PrettyWrap(request);
    }

    if CommandFilter.IsRestricted(request) {
      return Status403, None;
    }

    if !sessionFound {
      return Status500, None;
    }

    submitted := Some(request);
    var answered := reply;
    if IsPaged(reply) {
      var values := new string[|reply.values|](k requires 0 <= k < |reply.values| => reply.values[k]);
      assert values[..] == reply.values;
      registry.Pager(values, DeleteFlag(reply.attributes), host.hash, clock);
      answered := reply.(values := values[..]);
    }
    var str := host.stringify(answered);
    if format == "pretty" && |answered.indexed| > 0 {
      str := answered.indexed[0];
    }
    outcome := Status200(str);
  }
}
