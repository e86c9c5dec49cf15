/** How an upload identifier becomes the name of a chunk file:
    `cleanIdentifier` and `getChunkFilename` of resumable.js. */
module Naming {
  import opened Decimal

  /** The text the source's pattern `/^0-9A-Za-z_-/img` matches. It has no
      brackets, so it is not a character class: it is these eleven characters
      in a row, anchored at the start of a line. */
  const Pattern: string := "0-9A-Za-z_-"

  /** The characters after which `^` matches in a multiline JavaScript regex. */
  predicate IsLineTerminator(c: char) {
    c == '\n' || c == '\r' || c == '\U{2028}' || c == '\U{2029}'
  }

  /** ASCII upper case; the `i` flag makes a letter of the pattern match
      either case, and only ASCII letters can match ASCII pattern characters. */
  function AsciiUpper(c: char): char {
    if 'a' <= c <= 'z' then (c as int - 32) as char else c
  }

  /** `s` begins with the pattern text, ignoring case. */
  predicate PatternAt(s: string) {
    |s| >= |Pattern| && forall i :: 0 <= i < |Pattern| ==> AsciiUpper(s[i]) == AsciiUpper(Pattern[i])
  }

  /** The global replace, scanning left to right; `atLineStart` says whether
      the first character of `s` stands at the start of a line of the whole
      identifier. After a match the next position follows the pattern's final
      `-`, which is not a line terminator. */
  function StripFrom(s: string, atLineStart: bool): (r: string)
    ensures |r| <= |s|
    decreases |s|
  {
    if s == [] then []
    else if atLineStart && PatternAt(s) then StripFrom(s[|Pattern|..], false)
    else [s[0]] + StripFrom(s[1..], IsLineTerminator(s[0]))
  }

  /** `cleanIdentifier` as written: removes every occurrence of the pattern
      text that starts a line, and nothing else. */
  function CleanIdentifier(identifier: string): (r: string)
    ensures |r| <= |identifier|
  {
    StripFrom(identifier, true)
  }

  /** The characters the comment above `cleanIdentifier` allows. */
  predicate IsAllowed(c: char) {
    '0' <= c <= '9' || 'A' <= c <= 'Z' || 'a' <= c <= 'z' || c == '_' || c == '-'
  }

  /** The sanitiser the comment describes: every character outside
      `[0-9A-Za-z_-]` is deleted (the pattern `/[^0-9A-Za-z_-]/g`). */
  function SanitizeIdentifier(identifier: string): (r: string)
    ensures |r| <= |identifier|
    ensures forall i :: 0 <= i < |r| ==> IsAllowed(r[i])
    decreases |identifier|
  {
    if identifier == [] then []
    else (if IsAllowed(identifier[0]) then [identifier[0]] else []) + SanitizeIdentifier(identifier[1..])
  }

  /** Which cleaning the engine applies: the source's own, or the corrected one. */
  datatype IdentifierRule = AsWritten | AllowList

  function CleanWith(rule: IdentifierRule, identifier: string): (r: string)
    ensures |r| <= |identifier|
  {
    match rule
    case AsWritten => CleanIdentifier(identifier)
    case AllowList => SanitizeIdentifier(identifier)
  }

  /** Everything of a chunk's file name but its number: `<dir>/<cleaned id>.` */
  function ChunkPrefix(dir: string, rule: IdentifierRule, identifier: string): (r: string) {
    dir + "/" + CleanWith(rule, identifier) + "."
  }

  /** `getChunkFilename`: `<dir>/<cleaned id>.<chunkNumber>`. */
  function ChunkFilename(dir: string, rule: IdentifierRule, identifier: string, chunkNumber: nat): (r: string) {
    ChunkPrefix(dir, rule, identifier) + NatToString(chunkNumber)
  }

  /** A chunk's file lies in `dir`, its name starts with the cleaned
      identifier and a dot, and the digits after that dot read back as the
      chunk number. */
  lemma ChunkFilenameParts(dir: string, rule: IdentifierRule, identifier: string, chunkNumber: nat)
    ensures var r, p := ChunkFilename(dir, rule, identifier, chunkNumber), ChunkPrefix(dir, rule, identifier);
            && |r| > |p| > |dir| + 1 && r[..|dir| + 1] == dir + "/"
            && r[..|p|] == p && r[|p| - 1] == '.'
            && AllDigits(r[|p|..]) && ParseDecimal(r[|p|..]) == chunkNumber
  {
    ParseNatToString(chunkNumber);
    var r, p := ChunkFilename(dir, rule, identifier, chunkNumber), ChunkPrefix(dir, rule, identifier);
    assert r[|p|..] == NatToString(chunkNumber);
  }

  /** Cutting `x.d` at its last dot: a string of digits holds no dot. */
  lemma SplitAtLastDot(x: string, d: string, y: string, e: string)
    requires AllDigits(d) && AllDigits(e)
    requires x + "." + d == y + "." + e
    ensures x == y && d == e
  {
    var s := x + "." + d;
    assert s == y + "." + e;
    assert s[|s| - |d| - 1] == '.' && s[|s| - |e| - 1] == '.';
    assert forall j :: |s| - |d| <= j < |s| ==> s[j] == d[j - (|s| - |d|)] != '.';
    assert forall j :: |s| - |e| <= j < |s| ==> s[j] == e[j - (|s| - |e|)] != '.';
    assert |d| == |e|;
    assert d == s[|s| - |d|..] == e;
    assert x == s[..|x|] == y;
  }

  /** Two chunk file names, built by concatenation in one directory, are
      equal only when they belong to the same cleaned identifier and carry the
      same number: the chunks of one upload never share a file, nor do two
      uploads whose cleaned identifiers differ. The second half needs names
      that no path normalisation rewrites; `AllowList` output holds no `.` or
      `/`, so there it holds of the source's `path.join` too, while
      `AsWritten` lets `./b` and `b` reach the same file. */
  lemma ChunkFilenameInjective(dir: string, rule: IdentifierRule, a: string, n: nat, b: string, m: nat)
    requires ChunkFilename(dir, rule, a, n) == ChunkFilename(dir, rule, b, m)
    ensures CleanWith(rule, a) == CleanWith(rule, b) && n == m
  {
    var x, y := dir + "/" + CleanWith(rule, a), dir + "/" + CleanWith(rule, b);
    SplitAtLastDot(x, NatToString(n), y, NatToString(m));
    assert CleanWith(rule, a) == x[|dir| + 1..] == y[|dir| + 1..] == CleanWith(rule, b);
    NatToStringInjective(n, m);
  }

  /** Numbers of chunks of one identifier name different files. */
  lemma PrefixKeysDistinct(prefix: string, n: nat, m: nat)
    requires prefix + NatToString(n) == prefix + NatToString(m)
    ensures n == m
  {
    assert NatToString(n) == (prefix + NatToString(n))[|prefix|..];
    NatToStringInjective(n, m);
  }

  /** A string with no line terminator that does not begin with the pattern
      (or does not stand at a line start) is left as it is. */
  lemma {:induction false} StripPlain(s: string, atLineStart: bool)
    requires forall i :: 0 <= i < |s| ==> !IsLineTerminator(s[i])
    requires atLineStart ==> !PatternAt(s)
    ensures StripFrom(s, atLineStart) == s
    decreases |s|
  {
    if s != [] {
      StripPlain(s[1..], false);
    }
  }

  /** The pattern text holds no line terminator. */
  lemma PatternHasNoLineTerminator()
    ensures forall i :: 0 <= i < |Pattern| ==> !IsLineTerminator(Pattern[i])
  {
  }

  /** The pattern at the very start of the identifier is removed. */
  lemma StripLeadingPattern(t: string)
    ensures StripFrom(Pattern + t, true) == StripFrom(t, false)
  {
    assert PatternAt(Pattern + t);
    assert (Pattern + t)[|Pattern|..] == t;
  }

  /** The source does not delete disallowed characters: a path such as
      `../x` passes through unchanged, contrary to the comment above it. */
  lemma AsWrittenKeepsDisallowed()
    ensures CleanIdentifier("../x") == "../x"
    ensures !IsAllowed('/') && !IsAllowed('.')
  {
    StripPlain("../x", true);
  }

  /** Cleaning as written is not idempotent: a second pass removes what the
      first pass exposed at the start. */
  lemma AsWrittenNotIdempotent()
    ensures CleanIdentifier(Pattern + Pattern) == Pattern
    ensures CleanIdentifier(Pattern) == []
  {
    PatternHasNoLineTerminator();
    StripLeadingPattern(Pattern);
    StripPlain(Pattern, false);
    StripLeadingPattern([]);
    assert Pattern + [] == Pattern;
  }

  /** The case-insensitive flag: a lower-case spelling is removed too. */
  lemma AsWrittenIgnoresCase()
    ensures CleanIdentifier("0-9a-za-z_-id") == "id"
  {
    var s := "0-9a-za-z_-id";
    assert PatternAt(s);
    assert s[|Pattern|..] == "id";
    StripPlain("id", false);
  }

  /** `post` cleans the identifier (resumable.js:90) and then names the chunk
      with `getChunkFilename`, which cleans it again; `get` cleans it once.
      For this identifier the chunk `post` stores is not the file `get` looks
      for. */
  lemma AsWrittenPostGetKeysDiffer(dir: string, n: nat)
    ensures var id := Pattern + Pattern + "x";
            ChunkFilename(dir, AsWritten, CleanWith(AsWritten, id), n) != ChunkFilename(dir, AsWritten, id, n)
  {
    var id := Pattern + Pattern + "x";
    assert id == Pattern + (Pattern + "x");
    PatternHasNoLineTerminator();
    assert forall i :: 0 <= i < |Pattern + "x"| ==> !IsLineTerminator((Pattern + "x")[i]);
    StripLeadingPattern(Pattern + "x");
    StripPlain(Pattern + "x", false);
    assert CleanWith(AsWritten, id) == Pattern + "x";
    StripLeadingPattern("x");
    StripPlain("x", false);
    assert CleanWith(AsWritten, Pattern + "x") == "x";
    if ChunkFilename(dir, AsWritten, CleanWith(AsWritten, id), n) == ChunkFilename(dir, AsWritten, id, n) {
      ChunkFilenameInjective(dir, AsWritten, CleanWith(AsWritten, id), n, id, n);
    }
  }

  /** A string of allowed characters is its own sanitised form. */
  lemma {:induction false} SanitizeKeepsAllowed(s: string)
    requires forall i :: 0 <= i < |s| ==> IsAllowed(s[i])
    ensures SanitizeIdentifier(s) == s
    decreases |s|
  {
    if s != [] {
      SanitizeKeepsAllowed(s[1..]);
    }
  }

  /** The corrected sanitiser works character by character: it keeps each
      allowed character, drops each other one, and sanitises a concatenation
      piecewise, so the allowed characters survive in their order. */
  lemma {:induction false} SanitizeConcat(a: string, b: string)
    ensures SanitizeIdentifier(a + b) == SanitizeIdentifier(a) + SanitizeIdentifier(b)
    decreases |a|
  {
    if a != [] {
      assert (a + b)[0] == a[0];
      assert (a + b)[1..] == a[1..] + b;
      SanitizeConcat(a[1..], b);
    } else {
      assert a + b == b;
    }
  }

  /** A single character: kept when allowed, dropped otherwise. */
  lemma SanitizeSingle(c: char)
    ensures IsAllowed(c) ==> SanitizeIdentifier([c]) == [c]
    ensures !IsAllowed(c) ==> SanitizeIdentifier([c]) == []
  {
  }

  /** The corrected sanitiser is idempotent. */
  lemma SanitizeIdempotent(s: string)
    ensures SanitizeIdentifier(SanitizeIdentifier(s)) == SanitizeIdentifier(s)
  {
    SanitizeKeepsAllowed(SanitizeIdentifier(s));
  }

  /** With the corrected sanitiser, cleaning twice (`post`) and cleaning once
      (`get`) name the same chunk file. */
  lemma AllowListPostGetKeysAgree(dir: string, id: string, n: nat)
    ensures ChunkFilename(dir, AllowList, CleanWith(AllowList, id), n) == ChunkFilename(dir, AllowList, id, n)
  {
    SanitizeIdempotent(id);
  }
}
