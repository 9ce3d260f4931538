/**
 * The string facts the handler relies on, stated as JavaScript defines them:
 * the `\s` character class, ASCII case folding under the `i` regex flag,
 * `String.prototype.split` on a single character, `Array.prototype.join`,
 * and the decimal rendering of a non-negative integer.
 */
module Strings {

  datatype Option<+T> = None | Some(value: T)

  /** The characters the `\s` class of an ECMAScript regular expression
      matches: WhiteSpace and LineTerminator. None of them is a letter, so
      the `i` flag leaves them as they are. */
  predicate IsSpace(c: char): (r: bool)
    ensures r ==> Lower(c) == c
  {
    || c == ' ' || c == '\t' || c == '\n' || c == '\r'
    || c as int == 0x0B || c as int == 0x0C || c as int == 0xA0
    || c as int == 0x1680 || (0x2000 <= c as int <= 0x200A)
    || c as int == 0x2028 || c as int == 0x2029 || c as int == 0x202F
    || c as int == 0x205F || c as int == 0x3000 || c as int == 0xFEFF
  }

  predicate AllSpace(s: string) {
    forall k :: 0 <= k < |s| ==> IsSpace(s[k])
  }

  /** Case folding as a non-Unicode `i` regex performs it against a lower-case
      ASCII pattern: only 'A'..'Z' fold, since no character outside ASCII is
      canonicalised onto an ASCII one. */
  function Lower(c: char): char {
    if 'A' <= c <= 'Z' then (c as int - 'A' as int + 'a' as int) as char else c
  }

  /** A character matches a pattern character `x` under the `i` flag
      exactly when it is `x` itself or, when `x` is a letter, the same letter
      in upper case. */
  lemma LowerMatchesEitherCase(c: char, x: char)
    requires !('A' <= x <= 'Z')
    ensures Lower(c) == x <==> c == x || ('a' <= x <= 'z' && c as int == x as int - 32)
  {
  }

  /** `s` begins with the lower-case word `w`, ignoring the case of `s`. */
  predicate StartsWithFolded(s: string, w: string) {
    |w| <= |s| && forall k :: 0 <= k < |w| ==> Lower(s[k]) == w[k]
  }

  /** What is left of `s` once the leading `\s*` is consumed. */
  function TrimStart(s: string): (r: string)
    ensures |r| <= |s|
    ensures AllSpace(s[..|s| - |r|])
    ensures r == [] || !IsSpace(r[0])
  {
    if s != [] && IsSpace(s[0]) then
      var r := TrimStart(s[1..]);
      assert s[..|s| - |r|] == [s[0]] + s[1..][..|s[1..]| - |r|];
      r
    else
      s
  }

  /** What TrimStart leaves is a suffix of its argument. */
  lemma {:induction false} TrimStartIsSuffix(s: string)
    ensures TrimStart(s) == s[|s| - |TrimStart(s)|..]
  {
    if s != [] && IsSpace(s[0]) {
      TrimStartIsSuffix(s[1..]);
    }
  }

  /** What follows the first `k` characters left by TrimStart is the same
      text read from the command itself. */
  lemma TrimStartTail(s: string, k: nat)
    requires k <= |TrimStart(s)|
    ensures TrimStart(s)[k..] == s[|s| - |TrimStart(s)| + k..]
  {
    TrimStartIsSuffix(s);
  }

  /** The leading run of white space ends at the first non-space character,
      so that is where TrimStart stops. */
  lemma {:induction false} TrimStartAt(s: string, i: nat)
    requires i < |s| && AllSpace(s[..i]) && !IsSpace(s[i])
    ensures TrimStart(s) == s[i..]
  {
    if i > 0 {
      assert IsSpace(s[..i][0]);
      assert s[1..][..i - 1] == s[..i][1..];
      TrimStartAt(s[1..], i - 1);
      assert s[1..][i - 1..] == s[i..];
    }
  }

  /** `s.split(sep)` for a one-character separator. */
  function Split(s: string, sep: char): (parts: seq<string>)
    ensures |parts| >= 1
    ensures forall k :: 0 <= k < |parts| ==> sep !in parts[k]
    ensures Join(parts, sep) == s
  {
    if s == [] then
      [""]
    else
      var rest := Split(s[1..], sep);
      if s[0] == sep then
        var parts := [""] + rest;
        assert parts[1..] == rest;
        parts
      else
        var parts := [[s[0]] + rest[0]] + rest[1..];
        assert |rest| > 1 ==> parts[1..] == rest[1..];
        assert |rest| > 1 ==> Join(rest, sep) == rest[0] + [sep] + Join(rest[1..], sep);
        parts
  }

  /** `parts.join(sep)`. */
  function Join(parts: seq<string>, sep: char): string {
    if |parts| == 0 then ""
    else if |parts| == 1 then parts[0]
    else parts[0] + [sep] + Join(parts[1..], sep)
  }

  /** A piece without the separator stays glued to what follows it. */
  lemma {:induction false} SplitAfterPiece(w: string, s: string, sep: char)
    requires sep !in w
    ensures Split(w + s, sep) == [w + Split(s, sep)[0]] + Split(s, sep)[1..]
  {
    if w != [] {
      SplitAfterPiece(w[1..], s, sep);
      assert (w + s)[1..] == w[1..] + s;
      assert [w[0]] + (w[1..] + Split(s, sep)[0]) == w + Split(s, sep)[0];
    } else {
      var parts := Split(s, sep);
      assert w + s == s && w + parts[0] == parts[0];
      assert parts == [parts[0]] + parts[1..];
    }
  }

  /** A leading separator closes an empty first piece. */
  lemma SplitAfterSeparator(s: string, sep: char)
    ensures Split([sep] + s, sep) == [""] + Split(s, sep)
  {
    assert ([sep] + s)[1..] == s;
  }

  /** Splitting undoes joining pieces that hold no separator. */
  lemma {:induction false} SplitOfJoin(parts: seq<string>, sep: char)
    requires |parts| >= 1
    requires forall k :: 0 <= k < |parts| ==> sep !in parts[k]
    ensures Split(Join(parts, sep), sep) == parts
  {
    var first := parts[0];
    if |parts| == 1 {
      SplitAfterPiece(first, "", sep);
      assert first + "" == first;
    } else {
      var tail := Join(parts[1..], sep);
      var rest := [sep] + tail;
      assert Join(parts, sep) == first + rest;
      SplitOfJoin(parts[1..], sep);
      SplitAfterSeparator(tail, sep);
      assert Split(rest, sep) == [""] + parts[1..];
      SplitAfterPiece(first, rest, sep);
      assert first + "" == first;
      assert parts == [first] + parts[1..];
    }
  }

  /** The text of a URL before its first `?`: `href.split(/\?/)[0]`. */
  function BeforeQuery(href: string): (r: string)
    ensures r <= href && '?' !in r
    ensures |r| < |href| ==> href[|r|] == '?'
  {
    var parts := Split(href, '?');
    var r := parts[0];
    JoinStartsWithFirst(parts, '?');
    r
  }

  lemma JoinStartsWithFirst(parts: seq<string>, sep: char)
    requires |parts| >= 1
    ensures parts[0] <= Join(parts, sep)
    ensures |parts| > 1 ==> |parts[0]| < |Join(parts, sep)| && Join(parts, sep)[|parts[0]|] == sep
  {
    if |parts| > 1 {
      assert Join(parts, sep) == parts[0] + [sep] + Join(parts[1..], sep);
    }
  }

  /** The slash-separated pieces of the path part of a URL:
      `href.split(/\?/)[0].split(/\//)`. */
  function PathParts(href: string): (parts: seq<string>)
    ensures |parts| >= 1 && Join(parts, '/') == BeforeQuery(href)
    ensures forall k :: 0 <= k < |parts| ==> '/' !in parts[k] && '?' !in parts[k]
  {
    var path := BeforeQuery(href);
    var parts := Split(path, '/');
    forall k | 0 <= k < |parts| ensures '?' !in parts[k] {
      if '?' in parts[k] {
        JoinKeepsPieces(parts, '/', k, '?');
      }
    }
    parts
  }

  lemma {:induction false} JoinKeepsPieces(parts: seq<string>, sep: char, k: nat, c: char)
    requires k < |parts| && c in parts[k]
    ensures c in Join(parts, sep)
  {
    if |parts| > 1 {
      var tail := Join(parts[1..], sep);
      assert Join(parts, sep) == parts[0] + [sep] + tail;
      if k > 0 {
        JoinKeepsPieces(parts[1..], sep, k - 1, c);
        var i :| 0 <= i < |tail| && tail[i] == c;
        assert Join(parts, sep)[|parts[0]| + 1 + i] == c;
      } else {
        var i :| 0 <= i < |parts[0]| && parts[0][i] == c;
        assert Join(parts, sep)[i] == c;
      }
    }
  }

  /** A path prefix without `?` is untouched by cutting off the query. */
  lemma BeforeQueryUnderPrefix(p: string, x: string)
    requires '?' !in p
    ensures BeforeQuery(p + x) == p + BeforeQuery(x)
  {
    SplitAfterPiece(p, x, '?');
  }

  /** The pieces of `/dir/rest`: an empty piece, `dir`, then those of `rest`. */
  lemma SplitUnderDirectory(dir: string, rest: string)
    requires '/' !in dir
    ensures Split("/" + dir + "/" + rest, '/') == ["", dir] + Split(rest, '/')
  {
    var tail := ['/'] + rest;
    var whole := dir + tail;
    SplitAfterSeparator(rest, '/');
    SplitAfterPiece(dir, tail, '/');
    assert dir + "" == dir;
    assert Split(whole, '/') == [dir] + Split(rest, '/');
    assert "/" + dir + "/" + rest == ['/'] + whole by {
      assert "/" + dir + "/" == ['/'] + (dir + ['/']);
      assert (dir + ['/']) + rest == whole;
    }
    SplitAfterSeparator(whole, '/');
  }

  /** A separator-free name followed by nothing or by further pieces is the
      first piece, and the only one exactly when nothing follows. */
  lemma SplitNameThenPieces(name: string, tail: string, sep: char)
    requires sep !in name
    requires tail == "" || tail[0] == sep
    ensures var pieces := Split(name + tail, sep);
            pieces[0] == name && (|pieces| == 1 <==> tail == "")
  {
    SplitAfterPiece(name, tail, sep);
    if tail == "" {
      assert Split(tail, sep) == [""];
    } else {
      assert tail == [sep] + tail[1..];
      SplitAfterSeparator(tail[1..], sep);
    }
    assert name + "" == name;
  }

  /** The pieces of `/dir/name` followed by nothing or by further pieces:
      the third is `name`, and there are exactly three when nothing follows. */
  lemma SplitThirdPiece(dir: string, name: string, tail: string)
    requires '/' !in dir && '/' !in name
    requires tail == "" || tail[0] == '/'
    ensures var parts := Split("/" + dir + "/" + (name + tail), '/');
            |parts| >= 3 && parts[2] == name && (|parts| == 3 <==> tail == "")
  {
    SplitUnderDirectory(dir, name + tail);
    SplitNameThenPieces(name, tail, '/');
  }

  /** Cutting the query off a URL whose path goes on after `prefix` leaves
      either nothing or further pieces after it. */
  lemma BeforeQueryAfterPrefix(prefix: string, rest: string)
    requires '?' !in prefix
    requires rest == "" || rest[0] == '?' || rest[0] == '/'
    ensures BeforeQuery(prefix + rest) == prefix + BeforeQuery(rest)
    ensures BeforeQuery(rest) == "" <==> rest == "" || rest[0] == '?'
    ensures BeforeQuery(rest) != "" ==> BeforeQuery(rest)[0] == '/'
  {
    BeforeQueryUnderPrefix(prefix, rest);
  }

  /** Decimal digits of `n`, as `String(n)` renders a safe integer. */
  function Decimal(n: nat): (r: string)
    ensures |r| >= 1
    ensures forall k :: 0 <= k < |r| ==> '0' <= r[k] <= '9'
  {
    var digit := (('0' as int) + n % 10) as char;
    if n < 10 then [digit] else Decimal(n / 10) + [digit]
  }
}
