/**
 * The result pager: a process-wide registry of single-use page tokens.
 * `pager` replaces each value of a paged R reply with a fresh token and
 * records the file behind it; `handlePage` serves a token once, deletes the
 * file when the reply asked for that, and clears the entry.
 *
 * The hash and the wall clock behind a token are parameters: a token is
 * `hash(value + String(milliseconds))`. The file store is a set of paths;
 * deleting a file removes its path.
 */
module PageRegistry {
  import opened Strings

  /** What the registry records for a token: `{file, deleteFile}`. */
  datatype PageEntry = PageEntry(file: string, deleteFile: bool)

  /** An entry of `pageFiles`: a live page, or `null` once it was served. */
  type Slot = Option<PageEntry>

  /** Prepended to every recorded path before it is streamed or deleted. */
  const PageFilePrefix: string := ""

  /** The token for `value` at clock reading `millis`. */
  function PageKey(hash: string -> string, value: string, millis: nat): string {
    hash(value + Decimal(millis))
  }

  /** The token of each value, one clock reading per value. */
  function PageKeys(hash: string -> string, values: seq<string>, clock: seq<nat>): seq<string>
    requires |clock| == |values|
  {
    seq(|values|, k requires 0 <= k < |values| => PageKey(hash, values[k], clock[k]))
  }

  /** The registry after recording `values[k]` under `keys[k]`, in order. */
  function RegisterAll(pages: map<string, Slot>, values: seq<string>, keys: seq<string>, deleteFile: bool)
    : (after: map<string, Slot>)
    requires |keys| == |values|
    ensures forall key :: key in after <==> key in pages || key in keys
  {
    if values == [] then pages
    else
      var n := |values| - 1;
      assert keys == keys[..n] + [keys[n]];
      RegisterAll(pages, values[..n], keys[..n], deleteFile)[keys[n] := Some(PageEntry(values[n], deleteFile))]
  }

  /** Registering one more value extends the registry by that value. */
  lemma RegisterAllStep(pages: map<string, Slot>, values: seq<string>, keys: seq<string>, deleteFile: bool, i: nat)
    requires |keys| == |values| && i < |values|
    ensures RegisterAll(pages, values[..i + 1], keys[..i + 1], deleteFile)
            == RegisterAll(pages, values[..i], keys[..i], deleteFile)[keys[i] := Some(PageEntry(values[i], deleteFile))]
  {
    assert values[..i + 1][..i] == values[..i] && keys[..i + 1][..i] == keys[..i];
  }

  /** A key nobody registered keeps its old slot. */
  lemma {:induction false} RegisterAllUntouched(pages: map<string, Slot>, values: seq<string>, keys: seq<string>,
                                                 deleteFile: bool, key: string)
    requires |keys| == |values| && key !in keys
    ensures var after := RegisterAll(pages, values, keys, deleteFile);
            (key in after <==> key in pages) && (key in pages ==> after[key] == pages[key])
  {
    if values != [] {
      var n := |values| - 1;
      assert key != keys[n];
      assert key !in keys[..n];
      RegisterAllUntouched(pages, values[..n], keys[..n], deleteFile, key);
    }
  }

  /** Of several values registered under one key, the last one stays. */
  lemma {:induction false} RegisterAllLastWins(pages: map<string, Slot>, values: seq<string>, keys: seq<string>,
                                                deleteFile: bool, j: nat)
    requires |keys| == |values| && j < |keys|
    requires forall l :: j < l < |keys| ==> keys[l] != keys[j]
    ensures var after := RegisterAll(pages, values, keys, deleteFile);
            keys[j] in after && after[keys[j]] == Some(PageEntry(values[j], deleteFile))
  {
    var n := |values| - 1;
    if j < n {
      assert keys[..n][j] == keys[j];
      RegisterAllLastWins(pages, values[..n], keys[..n], deleteFile, j);
    }
  }

  predicate Distinct(keys: seq<string>) {
    forall a, b :: 0 <= a < b < |keys| ==> keys[a] != keys[b]
  }

  /** With distinct tokens every value is reachable through its own token,
      and every other key keeps its slot. */
  lemma RegisterAllDistinct(pages: map<string, Slot>, values: seq<string>, keys: seq<string>, deleteFile: bool)
    requires |keys| == |values| && Distinct(keys)
    ensures var after := RegisterAll(pages, values, keys, deleteFile);
            && (forall k :: 0 <= k < |keys| ==> keys[k] in after && after[keys[k]] == Some(PageEntry(values[k], deleteFile)))
            && (forall key :: key !in keys ==> (key in after <==> key in pages) && (key in pages ==> after[key] == pages[key]))
  {
    forall k | 0 <= k < |keys|
      ensures var after := RegisterAll(pages, values, keys, deleteFile);
              keys[k] in after && after[keys[k]] == Some(PageEntry(values[k], deleteFile))
    {
      RegisterAllLastWins(pages, values, keys, deleteFile, k);
    }
    forall key | key !in keys
      ensures var after := RegisterAll(pages, values, keys, deleteFile);
              (key in after <==> key in pages) && (key in pages ==> after[key] == pages[key])
    {
      RegisterAllUntouched(pages, values, keys, deleteFile, key);
    }
  }

  /** Two equal values read at the same millisecond get the same token. */
  lemma SameValueSameMillisecond(hash: string -> string, values: seq<string>, clock: seq<nat>, a: nat, b: nat)
    requires |clock| == |values| && a < b < |values|
    requires values[a] == values[b] && clock[a] == clock[b]
    ensures !Distinct(PageKeys(hash, values, clock))
  {
    var keys := PageKeys(hash, values, clock);
    assert keys[a] == keys[b];
  }

  // ---------------------------------------------------------------------
  // Serving a page.

  /** The token of a page request: the third piece of the path, present only
      when the path has exactly three pieces and that piece is not empty. */
  function PageToken(href: string): (t: Option<string>)
    ensures t.Some? ==> t.value != "" && '/' !in t.value && '?' !in t.value
  {
    var parts := PathParts(href);
    if |parts| == 3 && parts[2] != "" then Some(parts[2]) else None
  }

  /** `/pager/<token>`, with or without a query, yields the token. */
  lemma PageTokenOfPagerUrl(token: string, query: string)
    requires token != "" && '/' !in token && '?' !in token
    requires query == "" || query[0] == '?'
    ensures PageToken("/pager/" + token + query) == Some(token)
  {
    var prefix := "/pager/" + token;
    BeforeQueryAfterPrefix(prefix, query);
    assert prefix + "" == "/" + "pager" + "/" + (token + "");
    SplitThirdPiece("pager", token, "");
  }

  /** An empty token, `/pager/` with or without a query, names no page:
      `!file` rejects it like a missing one. */
  lemma PageTokenOfEmptyToken(query: string)
    requires query == "" || query[0] == '?'
    ensures PageToken("/pager/" + query) == None
  {
    var prefix := "/pager/";
    BeforeQueryAfterPrefix(prefix, query);
    assert prefix + "" == "/" + "pager" + "/" + ("" + "");
    SplitThirdPiece("pager", "", "");
  }

  /** A path with anything below the token, such as `/pager/<token>/x`, has
      more than three pieces and names no page. */
  lemma PageTokenOfDeeperUrl(token: string, rest: string, query: string)
    requires '/' !in token && '?' !in token && '?' !in rest
    requires query == "" || query[0] == '?'
    ensures |PathParts("/pager/" + token + "/" + rest + query)| > 3
    ensures PageToken("/pager/" + token + "/" + rest + query) == None
  {
    var prefix := "/pager/" + token;
    var after := "/" + rest + query;
    assert "/pager/" + token + "/" + rest + query == prefix + after;
    BeforeQueryAfterPrefix(prefix, after);
    var tail := BeforeQuery(after);
    assert prefix + tail == "/" + "pager" + "/" + (token + tail);
    SplitThirdPiece("pager", token, tail);
  }

  /** A token is live when its slot holds an entry: an unknown token and a
      nulled one both read as falsy. */
  function Live(pages: map<string, Slot>, token: string): (e: Option<PageEntry>)
    ensures e.None? <==> token !in pages || pages[token].None?
    ensures e.Some? ==> pages[token] == e
  {
    if token in pages then pages[token] else None
  }

  /** The life of a token: never seen, registered, or served (nulled). */
  datatype TokenState = Unknown | Registered(entry: PageEntry) | Consumed

  function StateOf(pages: map<string, Slot>, token: string): (s: TokenState)
    ensures s.Registered? <==> Live(pages, token).Some?
  {
    if token !in pages then Unknown
    else if pages[token].None? then Consumed
    else Registered(pages[token].value)
  }

  /** How a page request ends. `UnlinkFailed`: the entry asked for deletion
      but the file is gone, so `FS.unlinkSync` throws inside the streaming
      callback before the entry is cleared. */
  datatype PageReply = NotFound | Streamed(path: string) | UnlinkFailed(path: string)

  datatype Fetched = Fetched(reply: PageReply, pages: map<string, Slot>, files: set<string>)

  /** One page request, from the lookup to the clearing of the entry, taken
      as a single step. */
  function Fetch(pages: map<string, Slot>, files: set<string>, href: string): (r: Fetched)
    ensures r.reply.NotFound? <==> PageToken(href).None? || Live(pages, PageToken(href).value).None?
    ensures r.reply.NotFound? || r.reply.UnlinkFailed? ==> r.pages == pages && r.files == files
    ensures r.reply.Streamed? ==>
              StateOf(pages, PageToken(href).value).Registered? && StateOf(r.pages, PageToken(href).value) == Consumed
    ensures forall key :: PageToken(href) != Some(key) ==> StateOf(r.pages, key) == StateOf(pages, key)
    ensures r.files <= files
  {
    match PageToken(href)
    case None => Fetched(NotFound, pages, files)
    case Some(token) =>
      match Live(pages, token)
      case None => Fetched(NotFound, pages, files)
      case Some(entry) =>
        var path := PageFilePrefix + entry.file;
        if entry.deleteFile && path !in files then
          Fetched(UnlinkFailed(path), pages, files)
        else
          Fetched(Streamed(path), pages[token := None], if entry.deleteFile then files - {path} else files)
  }

  /** A served token is dead: fetching it again is a 404 that changes nothing. */
  lemma {:induction false} FetchOnce(pages: map<string, Slot>, files: set<string>, href: string)
    requires Fetch(pages, files, href).reply.Streamed?
    ensures var first := Fetch(pages, files, href);
            var second := Fetch(first.pages, first.files, href);
            second == Fetched(NotFound, first.pages, first.files)
  {
    var first := Fetch(pages, files, href);
    assert StateOf(first.pages, PageToken(href).value) == Consumed;
  }

  /** A served page's file is deleted exactly when its entry asked for it;
      otherwise the file store is untouched. */
  lemma DeleteOnlyWhenFlagged(pages: map<string, Slot>, files: set<string>, href: string)
    requires Fetch(pages, files, href).reply.Streamed?
    ensures var r := Fetch(pages, files, href);
            var entry := Live(pages, PageToken(href).value).value;
            && r.reply.path == PageFilePrefix + entry.file
            && (entry.deleteFile ==> r.reply.path in files && r.files == files - {r.reply.path})
            && (!entry.deleteFile ==> r.files == files)
  {
  }

  /** A file that is gone makes a flagged entry unservable: the unlink
      throws before the entry is cleared, so the token stays registered and,
      as long as the process survives the exception, the next request for
      it fails the same way. */
  lemma {:induction false} MissingFlaggedFileStaysRegistered(pages: map<string, Slot>, files: set<string>,
                                                             token: string)
    requires token != "" && '/' !in token && '?' !in token
    requires Live(pages, token).Some? && Live(pages, token).value.deleteFile
    requires PageFilePrefix + Live(pages, token).value.file !in files
    ensures var r := Fetch(pages, files, "/pager/" + token);
            r.reply.UnlinkFailed? && StateOf(r.pages, token).Registered?
  {
    PageTokenOfPagerUrl(token, "");
    assert "/pager/" + token + "" == "/pager/" + token;
  }

  /** Pages recorded under distinct tokens are each served once, with the
      path and delete flag they were recorded with. */
  lemma {:induction false} RegisteredPageIsServed(pages: map<string, Slot>, files: set<string>, values: seq<string>,
                                                  keys: seq<string>, deleteFile: bool, k: nat)
    requires |keys| == |values| && Distinct(keys) && k < |keys|
    requires keys[k] != "" && '/' !in keys[k] && '?' !in keys[k]
    requires !deleteFile || PageFilePrefix + values[k] in files
    ensures var r := Fetch(RegisterAll(pages, values, keys, deleteFile), files, "/pager/" + keys[k]);
            && r.reply == Streamed(PageFilePrefix + values[k])
            && r.files == (if deleteFile then files - {PageFilePrefix + values[k]} else files)
  {
    RegisterAllLastWins(pages, values, keys, deleteFile, k);
    PageTokenOfPagerUrl(keys[k], "");
    assert "/pager/" + keys[k] + "" == "/pager/" + keys[k];
  }

  /** The process-wide `pageFiles` dictionary and the two operations that
      change it. */
  class Registry {
    var pageFiles: map<string, Slot>

    constructor ()
      ensures pageFiles == map[]
    {
      pageFiles := map[];
    }

    /** `pager(rResp)`: token each value in place and record it. `clock[k]`
        is the clock reading taken while handling `values[k]`. */
    method Pager(values: array<string>, deleteFile: bool, hash: string -> string, clock: seq<nat>)
      requires |clock| == values.Length
      modifies this, values
      ensures values[..] == PageKeys(hash, old(values[..]), clock)
      ensures pageFiles == RegisterAll(old(pageFiles), old(values[..]), values[..], deleteFile)
    {
      ghost var original := values[..];
      ghost var keys := PageKeys(hash, original, clock);
      var i := 0;
      while i < values.Length
        invariant 0 <= i <= values.Length
        invariant values[..i] == keys[..i]
        invariant values[i..] == original[i..]
        invariant pageFiles == RegisterAll(old(pageFiles), original[..i], keys[..i], deleteFile)
      {
        var key := PageKey(hash, values[i], clock[i]);
        assert values[i] == original[i] && key == keys[i];
        RegisterAllStep(old(pageFiles), original, keys, deleteFile, i);
        pageFiles := pageFiles[key := Some(PageEntry(values[i], deleteFile))];
        values[i] := key;
        assert values[..i + 1] == keys[..i + 1];
        i := i + 1;
      }
      assert original[..i] == original && keys[..i] == keys;
    }

    /** `handlePage(req)`: serve a live token once. `files` is the file
        store before the request; the result is the store afterwards. */
    method HandlePage(href: string, files: set<string>) returns (reply: PageReply, filesAfter: set<string>)
      modifies this
      ensures Fetched(reply, pageFiles, filesAfter) == Fetch(old(pageFiles), files, href)
    {
      var parts := PathParts(href);
      var file := if |parts| == 3 then parts[2] else "";
      if file == "" || file !in pageFiles || pageFiles[file].None? {
        return NotFound, files;
      }
      var entry := pageFiles[file].value;
      var path := PageFilePrefix + entry.file;
      filesAfter := files;
      if entry.deleteFile {
        if path !in files {
          return UnlinkFailed(path), files;
        }
        filesAfter := files - {path};
      }
      pageFiles := pageFiles[file := None];
      reply := Streamed(path);
    }
  }
}
