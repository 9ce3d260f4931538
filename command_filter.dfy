/**
 * The restricted-command filter: a fixed, case-insensitive denylist of
 * command prefixes. Each entry is either "a word, optional white space, an
 * opening parenthesis" or a bare word, anchored at the start of the command
 * after optional white space. The filter is advisory: it keeps users from
 * accidentally ending or blocking the shared R connection.
 */
module CommandFilter {
  import opened Strings

  /** One regex of the denylist. `Call(w)` is `^\s*w\s*\(` and `Prefix(w)`
      is `^\s*w`, both with the `i` flag; `w` is written in lower case. */
  datatype Pattern = Call(word: string) | Prefix(word: string)

  /** The six regexes, in the order they are tried. */
  const Restricted: seq<Pattern> := [
    Call("q"), Call("quit"), Call("help"), Prefix("?"), Call(".internal"), Prefix("system")
  ]

  /** A word the uniqueness argument below applies to: it starts with a
      character that is neither white space nor case-folded onto one. */
  predicate Anchored(w: string) {
    |w| > 0 && !IsSpace(w[0])
  }

  /** Does `cmd` match the regex `p`? Computed the way the regex engine
      would succeed: consume the leading white space, compare the word
      case-insensitively, and for a call consume white space again and look
      for `(`. */
  predicate Matches(p: Pattern, cmd: string) {
    var t := TrimStart(cmd);
    && StartsWithFolded(t, p.word)
    && (p.Prefix? || var u := TrimStart(t[|p.word|..]); u != [] && u[0] == '(')
  }

  /** The loop over the denylist with its early return. */
  function FirstMatch(patterns: seq<Pattern>, cmd: string): (r: bool)
    ensures r <==> exists k :: 0 <= k < |patterns| && Matches(patterns[k], cmd)
  {
    if patterns == [] then
      false
    else if Matches(patterns[0], cmd) then
      true
    else
      var r := FirstMatch(patterns[1..], cmd);
      assert forall k :: 1 <= k < |patterns| ==> patterns[k] == patterns[1..][k - 1];
      r
  }

  /** `isRestricted(cmd)`: true exactly when one of the six regexes
      matches. */
  predicate IsRestricted(cmd: string): (r: bool)
    ensures r <==> RestrictedByRegex(cmd)
  {
    DenylistIffRegex(cmd);
    FirstMatch(Restricted, cmd)
  }

  // ---------------------------------------------------------------------
  // The regex reading of the same denylist, as an independent definition:
  // there is SOME split of the command into white space, the word (any case),
  // white space and `(` (or just white space and the word).

  /** `cmd[..i]` is white space and the word `w` starts at position `i`. */
  ghost predicate WordAt(cmd: string, w: string, i: nat) {
    i + |w| <= |cmd| && AllSpace(cmd[..i]) && StartsWithFolded(cmd[i..], w)
  }

  /** `cmd[j]` is the `(` that ends a call of a word ending at `e`. */
  ghost predicate ParenAt(cmd: string, e: nat, j: nat) {
    e <= j < |cmd| && AllSpace(cmd[e..j]) && cmd[j] == '('
  }

  /** The call `w(` with the word at `i` and the parenthesis at `j`. */
  ghost predicate CallAt(cmd: string, w: string, i: nat, j: nat) {
    WordAt(cmd, w, i) && ParenAt(cmd, i + |w|, j)
  }

  ghost predicate RegexMatches(p: Pattern, cmd: string) {
    match p
    case Prefix(w) => exists i: nat :: WordAt(cmd, w, i)
    case Call(w) => exists i: nat, j: nat :: CallAt(cmd, w, i, j)
  }

  /** The denylist, one regex after another. */
  ghost predicate RestrictedByRegex(cmd: string) {
    || RegexMatches(Call("q"), cmd)
    || RegexMatches(Call("quit"), cmd)
    || RegexMatches(Call("help"), cmd)
    || RegexMatches(Prefix("?"), cmd)
    || RegexMatches(Call(".internal"), cmd)
    || RegexMatches(Prefix("system"), cmd)
  }

  /** Where the word of an anchored pattern can start: only right after the
      leading white space. */
  lemma {:induction false} WordStartsAfterSpace(cmd: string, w: string, i: nat)
    requires Anchored(w) && WordAt(cmd, w, i)
    ensures TrimStart(cmd) == cmd[i..]
  {
    assert Lower(cmd[i..][0]) == w[0];
    TrimStartAt(cmd, i);
  }

  /** The word found after trimming sits right after the leading space. */
  lemma WordAfterTrim(cmd: string, w: string)
    requires StartsWithFolded(TrimStart(cmd), w)
    ensures WordAt(cmd, w, |cmd| - |TrimStart(cmd)|)
  {
    TrimStartIsSuffix(cmd);
  }

  /** The parenthesis found after trimming `rest`, the text from `e` on. */
  lemma ParenAfterTrim(cmd: string, e: nat, rest: string)
    requires e <= |cmd| && rest == cmd[e..]
    requires var u := TrimStart(rest); u != [] && u[0] == '('
    ensures ParenAt(cmd, e, |cmd| - |TrimStart(rest)|)
  {
    TrimStartIsSuffix(rest);
    var j := |cmd| - |TrimStart(rest)|;
    assert cmd[e..j] == rest[..|rest| - |TrimStart(rest)|];
  }

  /** A word at `i` followed by `rest`, whose leading space ends in `(`,
      is a call split. */
  lemma CallFound(cmd: string, w: string, i: nat, rest: string)
    requires WordAt(cmd, w, i) && rest == cmd[i + |w|..]
    requires var u := TrimStart(rest); u != [] && u[0] == '('
    ensures CallAt(cmd, w, i, |cmd| - |TrimStart(rest)|)
  {
    ParenAfterTrim(cmd, i + |w|, rest);
  }

  /** A computed match exhibits the split the regex asks for. */
  lemma MatchesGivesRegex(p: Pattern, cmd: string)
    requires Matches(p, cmd)
    ensures RegexMatches(p, cmd)
  {
    var w := p.word;
    var t := TrimStart(cmd);
    var i := |cmd| - |t|;
    match p
    case Prefix(_) =>
      WordAfterTrim(cmd, w);
      assert WordAt(cmd, w, i);
    case Call(_) =>
      WordAfterTrim(cmd, w);
      TrimStartTail(cmd, |w|);
      CallFound(cmd, w, i, t[|w|..]);
  }

  /** A call split the regex accepts is the one the computation finds. */
  lemma CallAtGivesMatches(cmd: string, w: string, i: nat, j: nat)
    requires Anchored(w) && CallAt(cmd, w, i, j)
    ensures Matches(Call(w), cmd)
  {
    WordStartsAfterSpace(cmd, w, i);
    var rest := cmd[i + |w|..];
    assert TrimStart(cmd)[|w|..] == rest;
    assert rest[..j - i - |w|] == cmd[i + |w|..j];
    TrimStartAt(rest, j - i - |w|);
  }

  /** Any split the regex accepts is the one the computation finds. */
  lemma RegexGivesMatches(p: Pattern, cmd: string)
    requires Anchored(p.word) && RegexMatches(p, cmd)
    ensures Matches(p, cmd)
  {
    var w := p.word;
    match p
    case Prefix(_) =>
      var i: nat :| WordAt(cmd, w, i);
      WordStartsAfterSpace(cmd, w, i);
    case Call(_) =>
      var i: nat, j: nat :| CallAt(cmd, w, i, j);
      CallAtGivesMatches(cmd, w, i, j);
  }

  /** The computed match agrees with the regex reading. */
  lemma MatchesIffRegex(p: Pattern, cmd: string)
    requires Anchored(p.word)
    ensures Matches(p, cmd) <==> RegexMatches(p, cmd)
  {
    if Matches(p, cmd) {
      MatchesGivesRegex(p, cmd);
    }
    if RegexMatches(p, cmd) {
      RegexGivesMatches(p, cmd);
    }
  }

  /** The scan over the denylist is true exactly when one of the six
      regexes matches. */
  lemma DenylistIffRegex(cmd: string)
    ensures FirstMatch(Restricted, cmd) <==> RestrictedByRegex(cmd)
  {
    forall k | 0 <= k < |Restricted|
      ensures Matches(Restricted[k], cmd) <==> RegexMatches(Restricted[k], cmd)
    {
      MatchesIffRegex(Restricted[k], cmd);
    }
    assert Restricted[0] == Call("q") && Restricted[1] == Call("quit");
    assert Restricted[2] == Call("help") && Restricted[3] == Prefix("?");
    assert Restricted[4] == Call(".internal") && Restricted[5] == Prefix("system");
  }

  /** A command whose first non-space character is none of the first
      characters of the six words is never restricted. */
  lemma {:induction false} UnrestrictedByFirstChar(cmd: string, i: nat)
    requires i < |cmd| && AllSpace(cmd[..i]) && !IsSpace(cmd[i])
    requires Lower(cmd[i]) !in {'q', 'h', '?', '.', 's'}
    ensures !IsRestricted(cmd)
  {
    TrimStartAt(cmd, i);
    forall k | 0 <= k < |Restricted| ensures !Matches(Restricted[k], cmd) {
      assert Restricted[k].word[0] in {'q', 'h', '?', '.', 's'};
      assert cmd[i..][0] == cmd[i];
    }
  }

  /** Three restricted commands, found through the regex reading, and two
      ordinary ones. */
  lemma ExampleQuitCall()
    ensures IsRestricted("q()")
  {
    assert CallAt("q()", "q", 0, 1);
  }

  lemma ExampleSpacedQuit()
    ensures IsRestricted("  QUIT (")
  {
    var cmd := "  QUIT (";
    assert AllSpace(cmd[..2]) && AllSpace(cmd[6..7]);
    assert StartsWithFolded(cmd[2..], "quit");
    assert CallAt(cmd, "quit", 2, 7);
  }

  lemma ExampleSystem()
    ensures IsRestricted("System.time()")
  {
    var cmd := "System.time()";
    assert StartsWithFolded(cmd[0..], "system");
    assert WordAt(cmd, "system", 0);
  }

  lemma ExampleArithmetic()
    ensures !IsRestricted("2+2") && !IsRestricted("mean(x)")
  {
    UnrestrictedByFirstChar("2+2", 0);
    UnrestrictedByFirstChar("mean(x)", 0);
  }
}
