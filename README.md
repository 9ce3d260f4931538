# R-Node `/R` handler, modelled in Dafny

This project models the request handler of the R-Node server that bridges
HTTP clients to a per-session R connection (`server/handlers/500-r.js`):

- the **command filter** `isRestricted`, a case-insensitive denylist of six
  anchored regexes (`q(`, `quit(`, `help(`, `?`, `.internal(`, `system`);
- the **result pager**: `pager` swaps each value of a reply tagged
  `RNodePager` for a token and records `{file, deleteFile}` under it in the
  process-wide `pageFiles` dictionary; `handlePage` serves a token once,
  deletes the file when asked to, and nulls the entry;
- the **command dispatcher** `handleR`: command extraction from the path,
  the `format=pretty` wrapper, the filter, the session lookup, paging and
  the choice of the reply body;
- the **route glue** `canHandle` / `handle` on the `/R/` and `/pager/` prefixes.

Files, one module each:

- `strings.dfy` (`Strings`): JavaScript string facts the handler relies on.
  These are the `\s` class, ASCII case folding under the `i` flag, `split` on
  one character and its inverse `join`, the path part of a URL, and decimal
  rendering.
- `command_filter.dfy` (`CommandFilter`): `isRestricted`, computed the way
  the regex engine succeeds. It is proved equal to an independent
  "there is a split of the command" reading of the six regexes.
- `page_registry.dfy` (`PageRegistry`): the `Registry` class holding
  `pageFiles`, its `Pager` loop and `HandlePage`, and the specification
  functions `RegisterAll` and `Fetch`, with their lemmas.
- `dispatcher.dfy` (`Dispatcher`): the `handleR` decisions as functions, and
  `HandleR` as a method that changes the registry.
- `routes.dfy` (`Routes`): `canHandle` and `handle`.

Collaborators become parameters:

- the session lookup `getRConnection(sid, false)` becomes `sessionFound`;
- the reply the asynchronous callback receives becomes the `reply` argument;
- `QUERY.unescape`, `JSON.stringify` and `SHA256.hex_sha256` become the
  functions of `Host`;
- the wall clock becomes a sequence of millisecond readings, one per paged value;
- the file store becomes a set of paths, and deletion removes a path.

Some of the code's behaviour differs from what a reader might expect of it,
and the model follows the code:

- The filter runs on the **wrapped** pretty command. That text starts with
  `p`, so a pretty request is never rejected (`Dispatcher.PrettyNeverRestricted`).
- One might expect a served entry to be cleared whatever happens to its
  file. The code does not clear it when a flagged file is already gone:
  `FS.unlinkSync` throws in the streaming callback, before
  `pageFiles[file] = null` runs (`PageRegistry.MissingFlaggedFileStaysRegistered`).
- In pretty mode the body is `rResp[0]` when `rResp.length` is non-zero.
  It is not read from `rResp.values`. The model keeps this: `RReply.indexed`
  is the reply read as an array.
- An empty token (`/pager/`) is rejected by `!file`, like a missing one
  (`PageRegistry.PageTokenOfEmptyToken`).

## Model

| member | source | states |
|---|---|---|
| `Strings.TrimStart` | server/handlers/500-r.js:38-43 | what is left after the leading `\s*`: everything removed is white space, and what remains does not start with white space |
| `Strings.TrimStartIsSuffix` | server/handlers/500-r.js:38-43 | what `\s*` leaves is a suffix of the command |
| `Strings.TrimStartAt` | server/handlers/500-r.js:38-43 | the leading white-space run ends exactly at the first non-space character (the `\s*` split is unique) |
| `Strings.IsSpace` | server/handlers/500-r.js:38-43 | the `\s` class: ECMAScript white space and line terminators, none of which the `i` flag folds |
| `Strings.LowerMatchesEitherCase` | server/handlers/500-r.js:38-43 | under the `i` flag a character matches a lower-case pattern character exactly when it is that character or, for a letter, its upper-case form |
| `Strings.Split` | server/handlers/500-r.js:69 | `split` on one character gives at least one piece, no piece holds the separator, and joining the pieces gives back the text |
| `Strings.SplitOfJoin` | server/handlers/500-r.js:69 | splitting undoes joining separator-free pieces (round trip in the other direction) |
| `Strings.SplitAfterPiece` | server/handlers/500-r.js:69 | a separator-free prefix stays glued to the first piece of what follows |
| `Strings.SplitAfterSeparator` | server/handlers/500-r.js:69 | a leading separator yields an empty first piece |
| `Strings.BeforeQuery` | server/handlers/500-r.js:69 | `split(/\?/)[0]` is the longest prefix without `?`, ending at the first `?` if there is one |
| `Strings.PathParts` | server/handlers/500-r.js:69 | the path pieces hold neither `/` nor `?`, and joined with `/` they give back the path before the query |
| `Strings.BeforeQueryAfterPrefix` | server/handlers/500-r.js:69 | cutting the query off keeps a `?`-free prefix, and what is left after it is empty exactly when nothing or a query follows, and starts with `/` otherwise |
| `Strings.SplitNameThenPieces` | server/handlers/500-r.js:69 | a separator-free name followed by nothing or by further pieces is the first piece, and the only one exactly when nothing follows |
| `Strings.SplitThirdPiece` | server/handlers/500-r.js:69-70 | `/dir/name` followed by nothing or by further pieces has `name` as its third piece, and exactly three pieces when nothing follows |
| `Strings.Decimal` | server/handlers/500-r.js:60 | the millisecond reading appended to a value is rendered as one or more decimal digits |
| `CommandFilter.Matches` | server/handlers/500-r.js:47 | `cmd.search(r[i]) >= 0` for one anchored regex, computed the way the regex engine succeeds; `MatchesIffRegex` proves it equal to the regex reading |
| `CommandFilter.FirstMatch` | server/handlers/500-r.js:46-52 | the loop with early return is true exactly when some regex of the list matches |
| `CommandFilter.MatchesGivesRegex` | server/handlers/500-r.js:38-43 | a computed match exhibits the white space / word / white space / `(` split the regex asks for |
| `CommandFilter.RegexGivesMatches` | server/handlers/500-r.js:38-43 | any split the regex accepts is found by the computation |
| `CommandFilter.CallAtGivesMatches` | server/handlers/500-r.js:38-42 | for a call regex, a word at `i` followed by white space and `(` at `j` is what the computation finds |
| `CommandFilter.MatchesIffRegex` | server/handlers/500-r.js:38-43 | the computed match of one regex agrees with its regex reading, both directions |
| `CommandFilter.DenylistIffRegex` | server/handlers/500-r.js:46-52 | the scan over the six regexes, in order with early return, is true exactly when one of their regex readings holds |
| `CommandFilter.IsRestricted` | server/handlers/500-r.js:36-53 | `isRestricted(cmd)` is true exactly when, after optional white space and ignoring case, `cmd` starts with `q`/`quit`/`help`/`.internal` + optional white space + `(`, or with `?`, or with `system` |
| `CommandFilter.UnrestrictedByFirstChar` | server/handlers/500-r.js:36-53 | a command whose first non-space character is not `q`, `h`, `?`, `.` or `s` in either case is never restricted |
| `CommandFilter.ExampleQuitCall` | server/handlers/500-r.js:38 | `q()` is restricted |
| `CommandFilter.ExampleSpacedQuit` | server/handlers/500-r.js:39 | `  QUIT (` is restricted |
| `CommandFilter.ExampleSystem` | server/handlers/500-r.js:43 | `System.time()` is restricted |
| `CommandFilter.ExampleArithmetic` | server/handlers/500-r.js:36-53 | `2+2` and `mean(x)` are not restricted |
| `PageRegistry.PageKey` | server/handlers/500-r.js:60 | the token of a value is the hash of the value followed by the decimal clock reading; `Registry.Pager` and `SameValueSameMillisecond` state what follows from it |
| `PageRegistry.RegisterAll` | server/handlers/500-r.js:59-64 | after recording values under their tokens, the registry's keys are the old keys plus the new tokens |
| `PageRegistry.RegisterAllUntouched` | server/handlers/500-r.js:59-64 | paging changes no registry key other than the new tokens |
| `PageRegistry.RegisterAllLastWins` | server/handlers/500-r.js:62 | when tokens repeat, the entry written last under a token is the one that stays |
| `PageRegistry.RegisterAllDistinct` | server/handlers/500-r.js:59-64 | with distinct tokens, each token leads to `{file: its original value, deleteFile}`, and every other key keeps its slot |
| `PageRegistry.SameValueSameMillisecond` | server/handlers/500-r.js:60 | two equal values paged in the same millisecond get the same token, so tokens are not guaranteed distinct |
| `PageRegistry.Registry.constructor` | server/handlers/500-r.js:56-57 | the registry starts empty |
| `PageRegistry.Registry.Pager` | server/handlers/500-r.js:58-65 | the values array keeps its length and each value becomes its token in place; the registry becomes the old one with every value recorded under its token, in order |
| `PageRegistry.PageToken` | server/handlers/500-r.js:69-70 | a token is never empty and holds neither `/` nor `?` |
| `PageRegistry.PageTokenOfPagerUrl` | server/handlers/500-r.js:69-70 | `/pager/<token>`, with or without a query, yields that token |
| `PageRegistry.PageTokenOfEmptyToken` | server/handlers/500-r.js:69-71 | `/pager/`, with or without a query, yields no token, so `!file` answers 404 as for a missing token |
| `PageRegistry.PageTokenOfDeeperUrl` | server/handlers/500-r.js:69-70 | `/pager/<token>/<rest>`, with or without a query, has more than three path pieces and yields no token (a 404) |
| `PageRegistry.Live` | server/handlers/500-r.js:71 | `pageFiles[file]` is falsy exactly when the token is missing or its entry was nulled; otherwise it is the recorded entry |
| `PageRegistry.StateOf` | server/handlers/500-r.js:71 | a token is registered exactly when its slot holds an entry (missing and nulled slots are both falsy) |
| `PageRegistry.Fetch` | server/handlers/500-r.js:67-86 | 404 exactly when the token is missing or not live, and then nothing changes; a served token moves from registered to consumed; no other token changes state; files are only ever removed |
| `PageRegistry.FetchOnce` | server/handlers/500-r.js:71-84 | after a successful fetch, fetching the same token again is a 404 that changes nothing |
| `PageRegistry.DeleteOnlyWhenFlagged` | server/handlers/500-r.js:78-82 | a served page streams its recorded path; its file is removed exactly when `deleteFile` was set, otherwise the file store is unchanged |
| `PageRegistry.MissingFlaggedFileStaysRegistered` | server/handlers/500-r.js:81-84 | when a flagged file is already gone, `unlinkSync` throws before the entry is nulled, so the token stays registered |
| `PageRegistry.RegisteredPageIsServed` | server/handlers/500-r.js:58-86 | a value paged under a distinct token is served from its original path, and its file is deleted exactly when the reply's delete flag was set |
| `PageRegistry.Registry.HandlePage` | server/handlers/500-r.js:67-86 | the reply, the new registry and the new file store are those `Fetch` gives for the old registry |
| `Dispatcher.Format` | server/handlers/500-r.js:93 | an absent or empty `format` means `raw`; any other value is used as given |
| `Dispatcher.PrettyWrap` | server/handlers/500-r.js:94-96 | the pretty expression is longer than the command and starts with `p` |
| `Dispatcher.CommandPathHasSegment` | server/handlers/500-r.js:90-91 | every `/R/` URL has a third path piece, so `parts[2]` exists |
| `Dispatcher.Segment` | server/handlers/500-r.js:90-91 | the command segment holds neither `/` nor `?` |
| `Dispatcher.SegmentOfCommandUrl` | server/handlers/500-r.js:90-91 | `/R/<segment>` yields that segment whether a query, further path pieces (`/R/x/2` gives `x`) or nothing follows |
| `Dispatcher.Command` | server/handlers/500-r.js:91-96 | in raw format the command is the decoded segment; in pretty format it is the decoded segment wrapped by `PrettyWrap`, which the filter never rejects |
| `Dispatcher.Decide` | server/handlers/500-r.js:98-115 | 403 exactly when the (possibly wrapped) command is restricted, whatever the session; 500 exactly when it is not restricted and no session is found; a command is submitted exactly otherwise, and it is the (possibly wrapped) decoded segment, never a restricted one |
| `Dispatcher.PrettyNeverRestricted` | server/handlers/500-r.js:94-98 | the filter never rejects a pretty-wrapped command, whatever it wraps |
| `Dispatcher.ForbiddenOnlyWhenRaw` | server/handlers/500-r.js:93-103 | a request is forbidden exactly when it is in raw format and its decoded command is restricted |
| `Dispatcher.IsPaged` | server/handlers/500-r.js:119 | paging runs exactly when `attributes.class` is an array whose first element is `RNodePager` |
| `Dispatcher.LooselyTrue` | server/handlers/500-r.js:62 | under JavaScript's loose `==`, only the string `"TRUE"` and the array `["TRUE"]` equal `"TRUE"` |
| `Dispatcher.DeleteFlag` | server/handlers/500-r.js:62 | `attributes.delete == "TRUE"` holds exactly when the attribute is present and is `"TRUE"` or `["TRUE"]` |
| `Dispatcher.Paged` | server/handlers/500-r.js:119-121 | a tagged reply's values become their tokens, in order, with the attributes kept; an untagged reply is left as it is |
| `Dispatcher.HandleR` | server/handlers/500-r.js:88-139 | 403, 500 or 200 as `Decide` says; a command is submitted only on the 200 path; the registry changes only when a submitted command's reply is tagged, and then by recording its values; the body is the serialised paged reply, or `rResp[0]` in pretty mode when the reply has a length |
| `Routes.RouteOf` | server/handlers/500-r.js:146-155 | a URL goes to `handleR` exactly when it starts with `/R/`, and to `handlePage` exactly when it starts with `/pager/` |
| `Routes.PrefixesDisjoint` | server/handlers/500-r.js:147-150 | no URL starts with both prefixes |
| `Routes.CanHandle` | server/handlers/500-r.js:157-159 | `canHandle` is true exactly when `handle` has a route for the URL |
| `Routes.Handle` | server/handlers/500-r.js:146-155 | returns true exactly when `canHandle` is true; `/R/` gets everything `handleR` promises (outcome, submitted command, body and registry), `/pager/` gets what `handlePage` promises, and any other URL changes nothing |

## Left out

- HTTP plumbing is left out: `writeHeader`, `write`, `end`, and the `Content-Length` and `Content-Type` headers. Outcomes are returned as values.
- File streaming (`UTILS.streamFile`) is left out, and so is its error argument. The model clears the entry whatever streaming reports, as the code does, so the error changes nothing that is modelled. `PageReply.Streamed` says only which path was handed to the streamer.
- The asynchronous request and the streaming callback each run as one sequential step. So the race between two fetches of one token across the streaming callback is not modelled.
- `URL.parse` is treated as the identity on the request URL. The `format` query parameter comes in already parsed. A repeated `format` parameter, which the parser turns into an array, is not modelled.
- `500-r.js` uses `SHA256` without importing it; the model takes it to be a working global.
- The exception `FS.unlinkSync` throws escapes the streaming callback. Whether the server survives it depends on code outside this file; an uncaught exception in a Node callback ends the process, and the whole registry with it. The model assumes the process survives and keeps the registry as it was.
- `QUERY.unescape`, `JSON.stringify` and the SHA-256 hash are opaque parameters. Nothing is proved about the tokens beyond how they are built. In particular, the model does not prove that a token differs from the path it replaces.
- Logging (`rNodeApi.log`, `SYS.debug`) is left out, and so is `init`'s registration of the two prefixes as exempt URLs. These are host side effects with no result.
- A null reply from R, and a reply without `attributes`, are not modelled separately. Missing attributes behave like an empty attribute map. A null reply would throw at line 127 in pretty mode.
- `pageFiles` is a plain JavaScript object. Inherited names such as `constructor` read as truthy entries, and the model does not capture this: its registry only holds what `pager` put there.
- The prefix test `beginsWith` comes from a helper outside this file (`rnodeUtils` is not part of this model). The model takes it to be a plain prefix test.
- The session's reply is an argument of the dispatcher even on the 403 and 500 paths, where no command is submitted; it is ignored there.
