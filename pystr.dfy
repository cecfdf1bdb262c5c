/** The Python `str` operations the scraper and the similarity engine rely on. */
module PyStr {

  /** Python's `str.isspace()` on one character: the characters `str.strip()` removes. */
  predicate IsSpace(c: char) {
    c == ' ' || ('\t' <= c <= '\r') || ('\U{1C}' <= c <= '\U{1F}') || c == '\U{85}' || c == '\U{A0}'
    || c == '\U{1680}' || ('\U{2000}' <= c <= '\U{200A}') || c == '\U{2028}' || c == '\U{2029}'
    || c == '\U{202F}' || c == '\U{205F}' || c == '\U{3000}'
  }

  predicate AllSpace(s: string) {
    forall i | 0 <= i < |s| :: IsSpace(s[i])
  }

  /** Neither end of `s` is whitespace: what `strip()` leaves behind. */
  predicate IsStripped(s: string) {
    s == [] || (!IsSpace(s[0]) && !IsSpace(s[|s| - 1]))
  }

  /** How many whitespace characters `s` starts with: what `lstrip()` removes. */
  function LeadingSpaces(s: string): (n: nat)
    ensures n <= |s| && AllSpace(s[..n])
    ensures n < |s| ==> !IsSpace(s[n])
  {
    if s != [] && IsSpace(s[0]) then
      var n := 1 + LeadingSpaces(s[1..]);
      assert forall k | 1 <= k < n :: s[..n][k] == s[1..][..n - 1][k - 1];
      n
    else 0
  }

  /** How many whitespace characters `s` ends with: what `rstrip()` removes. */
  function TrailingSpaces(s: string): (n: nat)
    ensures n <= |s| && AllSpace(s[|s| - n..])
    ensures n < |s| ==> !IsSpace(s[|s| - n - 1])
  {
    if s != [] && IsSpace(s[|s| - 1]) then
      var n := 1 + TrailingSpaces(s[..|s| - 1]);
      assert s[|s| - n..] == s[..|s| - 1][|s| - n..] + [s[|s| - 1]];
      n
    else 0
  }

  /** `s.strip()`: the result is a slice of `s` framed by whitespace on both sides. */
  function Strip(s: string): (r: string)
    ensures IsStripped(r)
    ensures exists i, j | 0 <= i <= j <= |s| :: r == s[i..j] && AllSpace(s[..i]) && AllSpace(s[j..])
    ensures r == [] <==> AllSpace(s)
  {
    var a := LeadingSpaces(s);
    var b := TrailingSpaces(s[a..]);
    TrailOfRest(s, a, b);
    StrippedMiddle(s, a, b);
    EmptyMiddle(s, a, b);
    s[a..|s| - b]
  }

  /** The whitespace trailing `s[a..]` is the whitespace trailing `s`. */
  lemma TrailOfRest(s: string, a: nat, b: nat)
    requires a <= |s| && b <= |s| - a && AllSpace(s[a..][|s| - a - b..])
    ensures AllSpace(s[|s| - b..])
  {
    assert s[|s| - b..] == s[a..][|s| - a - b..];
  }

  /** What lies between the leading and the trailing whitespace has no whitespace at its ends. */
  lemma StrippedMiddle(s: string, a: nat, b: nat)
    requires a <= |s| && (a < |s| ==> !IsSpace(s[a]))
    requires b <= |s| - a && (b < |s| - a ==> !IsSpace(s[a..][|s| - a - b - 1]))
    ensures IsStripped(s[a..|s| - b])
  {
    if a < |s| - b {
      assert s[a..|s| - b][0] == s[a];
      assert s[a..|s| - b][|s| - b - a - 1] == s[a..][|s| - a - b - 1];
    }
  }

  /** Nothing lies between the leading and the trailing whitespace exactly when `s` is all whitespace. */
  lemma EmptyMiddle(s: string, a: nat, b: nat)
    requires a <= |s| && AllSpace(s[..a]) && (a < |s| ==> !IsSpace(s[a]))
    requires b <= |s| - a && AllSpace(s[a..][|s| - a - b..])
    ensures s[a..|s| - b] == [] <==> AllSpace(s)
  {
    if a == |s| {
      assert s[..a] == s;
    } else {
      assert !AllSpace(s) by { assert !IsSpace(s[a]); }
      if b == |s| - a {
        assert false;
      }
    }
  }

  /** `s.startswith('/')`. */
  predicate StartsWithSlash(s: string) {
    |s| > 0 && s[0] == '/'
  }

  /** The only replacement field of the search-URL template. */
  const KeywordField: string := "{keyword}"

  /**
    * `template.format(keyword=value)`: every `{keyword}` field of the template is replaced by
    * `value`, and `value` itself is not scanned for fields.
    */
  function FormatKeyword(template: string, value: string): string
    decreases |template|
  {
    if |template| < |KeywordField| then template
    else if template[..|KeywordField|] == KeywordField then value + FormatKeyword(template[|KeywordField|..], value)
    else [template[0]] + FormatKeyword(template[1..], value)
  }

  /** Text with no `{` passes through `format` unchanged and in front of what follows it. */
  lemma {:induction false} FormatLiteralPrefix(p: string, rest: string, value: string)
    requires '{' !in p
    ensures FormatKeyword(p + rest, value) == p + FormatKeyword(rest, value)
    decreases |p|
  {
    if p != [] {
      var t := p + rest;
      assert p[0] in p;
      assert |KeywordField| == 9 && KeywordField[0] == '{';
      if |t| < |KeywordField| {
        assert FormatKeyword(rest, value) == rest;
        assert FormatKeyword(p[1..] + rest, value) == p[1..] + rest;
      } else {
        assert t[..|KeywordField|][0] == p[0] != KeywordField[0];
      }
      assert t[1..] == p[1..] + rest;
      assert forall c | c in p[1..] :: c in p;
      FormatLiteralPrefix(p[1..], rest, value);
      assert FormatKeyword(t, value) == [p[0]] + FormatKeyword(p[1..] + rest, value);
      assert [p[0]] + p[1..] == p;
    } else {
      assert p + rest == rest;
    }
  }

  /**
    * A template whose only `{` opens the single `{keyword}` field: formatting replaces that field
    * by `value` and leaves the text around it unchanged.
    */
  lemma FormatSingleField(prefix: string, suffix: string, value: string)
    requires '{' !in prefix && '{' !in suffix
    ensures FormatKeyword(prefix + KeywordField + suffix, value) == prefix + value + suffix
  {
    var tail := KeywordField + suffix;
    assert prefix + KeywordField + suffix == prefix + tail;
    FormatLiteralPrefix(prefix, tail, value);
    assert tail[..|KeywordField|] == KeywordField;
    assert tail[|KeywordField|..] == suffix;
    assert FormatKeyword(tail, value) == value + FormatKeyword(suffix, value);
    FormatLiteralPrefix(suffix, [], value);
    assert suffix + [] == suffix;
    assert FormatKeyword([], value) == [];
  }

  /** `" ".join(parts)`. */
  function Join(parts: seq<string>): string {
    if |parts| == 0 then ""
    else if |parts| == 1 then parts[0]
    else parts[0] + " " + Join(parts[1..])
  }

  /** `s.split(" ")`: the pieces between single spaces, empty pieces included. */
  function Split(s: string): (r: seq<string>)
    ensures |r| >= 1
  {
    if s == [] then [""]
    else if s[0] == ' ' then [""] + Split(s[1..])
    else var rest := Split(s[1..]); [[s[0]] + rest[0]] + rest[1..]
  }

  /** A piece without spaces, followed by a space, splits off as one piece. */
  lemma {:induction false} SplitPiece(p: string, rest: string)
    requires ' ' !in p
    ensures Split(p + " " + rest) == [p] + Split(rest)
    decreases |p|
  {
    if p == [] {
      assert p + " " + rest == [' '] + rest;
    } else {
      assert p[0] in p;
      assert (p + " " + rest)[1..] == p[1..] + " " + rest;
      assert forall c | c in p[1..] :: c in p;
      SplitPiece(p[1..], rest);
      assert [p[0]] + p[1..] == p;
    }
  }

  /** A string without spaces is a single piece. */
  lemma {:induction false} SplitNoSpace(p: string)
    requires ' ' !in p
    ensures Split(p) == [p]
    decreases |p|
  {
    if p != [] {
      assert p[0] in p;
      assert forall c | c in p[1..] :: c in p;
      SplitNoSpace(p[1..]);
      assert [p[0]] + p[1..] == p;
    }
  }

  /** Joining with single spaces is undone by splitting on them when no part holds a space. */
  lemma {:induction false} SplitJoin(parts: seq<string>)
    requires |parts| >= 1
    requires forall k | 0 <= k < |parts| :: ' ' !in parts[k]
    ensures Split(Join(parts)) == parts
    decreases |parts|
  {
    if |parts| == 1 {
      SplitNoSpace(parts[0]);
    } else {
      SplitPiece(parts[0], Join(parts[1..]));
      SplitJoin(parts[1..]);
      assert [parts[0]] + parts[1..] == parts;
    }
  }
}
