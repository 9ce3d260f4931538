/**
 * The entry points the host router calls: `canHandle` claims the URLs under
 * `/R/` and `/pager/`, and `handle` sends each to the command dispatcher or
 * to the pager.
 */
module Routes {
  import opened Strings
  import opened PageRegistry
  import opened Dispatcher

  const CommandPrefix: string := "/R/"
  const PagerPrefix: string := "/pager/"

  /** Where a URL goes, tried in the order `handle` tries the prefixes. */
  datatype Route = ToCommand | ToPager | Elsewhere

  function RouteOf(url: string): (r: Route)
    ensures r == ToCommand <==> CommandPrefix <= url
    ensures r == ToPager <==> PagerPrefix <= url
  {
    PrefixesDisjoint(url);
    if CommandPrefix <= url then ToCommand
    else if PagerPrefix <= url then ToPager
    else Elsewhere
  }

  /** No URL is under both prefixes: they differ in their second character. */
  lemma PrefixesDisjoint(url: string)
    ensures CommandPrefix <= url ==> !(PagerPrefix <= url)
  {
    if CommandPrefix <= url {
      assert url[1] == CommandPrefix[1] != PagerPrefix[1];
    }
  }

  /** `canHandle(req)`: the module claims a URL exactly when it has a
      route for it. */
  predicate CanHandle(url: string): (r: bool)
    ensures r <==> RouteOf(url) != Elsewhere
  {
    CommandPrefix <= url || PagerPrefix <= url
  }

  /** What `handle` did with a request. */
  datatype Handled = CommandHandled(outcome: Outcome, submitted: Option<string>) | PageHandled(reply: PageReply) | NotHandled

  /** `handle(req, ...)`: returns whether the module took the request, and
      what came of it. The arguments after `req` are the inputs of the two
      handlers; `files` is the file store before a page request and
      `filesAfter` the store afterwards. */
  method Handle(registry: Registry, req: Request, host: Host, sessionFound: bool, reply: RReply, clock: seq<nat>,
                files: set<string>)
    returns (handled: bool, result: Handled, filesAfter: set<string>)
    requires |clock| == |reply.values|
    modifies registry
    ensures handled <==> CanHandle(req.url)
    ensures RouteOf(req.url) == ToCommand ==>
              && result.CommandHandled? && filesAfter == files
              && AnswersAsDecided(req, host, sessionFound, reply, clock, old(registry.pageFiles), registry.pageFiles,
                                  result.outcome, result.submitted)
    ensures RouteOf(req.url) == ToPager ==>
              result.PageHandled? && Fetched(result.reply, registry.pageFiles, filesAfter) == Fetch(old(registry.pageFiles), files, req.url)
    ensures RouteOf(req.url) == Elsewhere ==>
              result == NotHandled && registry.pageFiles == old(registry.pageFiles) && filesAfter == files
  {
    if CommandPrefix <= req.url {
      var outcome, submitted := HandleR(registry, req, host, sessionFound, reply, clock);
      return true, CommandHandled(outcome, submitted), files;
    } else if PagerPrefix <= req.url {
      var pageReply;
      pageReply, filesAfter := registry.HandlePage(req.url, files);
      return true, PageHandled(pageReply), filesAfter;
    }
    return false, NotHandled, files;
  }
}
