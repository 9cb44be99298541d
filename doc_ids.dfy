/**
 * Display identifiers of documents and the two fixed regular expressions of
 * CouchbasePeerManager: DOC_PATTERN `"(.*?)"` (used with Matcher.find) and
 * DOC_ID_PATTERN `^(<.+>::).+` (used with Matcher.matches), written as
 * string functions with declarative descriptions of what they match.
 */
module DocIds {
  import opened Wrappers
  import opened JavaStrings

  /** One row of the projection query: the document id and its `type` property, if any. */
  datatype Row = Row(id: string, docType: Option<string>)

  /** The display identifier of a row: `<type>::id` for a typed document, the bare id otherwise. */
  function Encode(row: Row): (r: string)
    ensures EndsWith(r, row.id)
    ensures |r| == |row.id| + (if row.docType.Some? then |row.docType.value| + 4 else 0)
  {
    match row.docType
    case None => row.id
    case Some(t) => "<" + t + ">::" + row.id
  }

  // ---------------------------------------------------------------------------
  // DOC_PATTERN with Matcher.find

  /**
   * From index `k` on, a double quote is reached at `j` without crossing
   * another quote or a line terminator (which Java's `.` does not match).
   */
  predicate ClosesAt(q: string, k: int, j: int) {
    0 <= k <= j < |q| && q[j] == '"' &&
    forall m :: k <= m < j ==> q[m] != '"' && !IsLineTerminator(q[m])
  }

  /** `q[i..j+1]` is what the lazy `"(.*?)"` matches when the attempt starts at `i`. */
  predicate QuotedAt(q: string, i: int, j: int) {
    0 <= i < |q| && q[i] == '"' && ClosesAt(q, i + 1, j)
  }

  /** The lazy `.*?` followed by `"`: the first quote from `k`, unless a line terminator comes first. */
  function CloseQuote(q: string, k: nat): (r: Option<nat>)
    ensures r.Some? ==> ClosesAt(q, k, r.value)
    ensures r.None? ==> forall j :: !ClosesAt(q, k, j)
    decreases |q| - k
  {
    if k >= |q| then None
    else if q[k] == '"' then Some(k)
    else if IsLineTerminator(q[k]) then
      assert forall j :: !ClosesAt(q, k, j) by {
        forall j ensures !ClosesAt(q, k, j) {
          if k < j < |q| { assert !(q[k] != '"' && !IsLineTerminator(q[k])); }
        }
      }
      None
    else
      var r := CloseQuote(q, k + 1);
      assert forall j :: ClosesAt(q, k, j) ==> ClosesAt(q, k + 1, j);
      r
  }

  /** `Matcher.find()` from index `i`: the leftmost start at which `"(.*?)"` matches, with its closing quote. */
  function FindFrom(q: string, i: nat): (r: Option<(nat, nat)>)
    ensures r.Some? ==> i <= r.value.0 && QuotedAt(q, r.value.0, r.value.1)
    ensures r.Some? ==> forall i', j :: i <= i' < r.value.0 ==> !QuotedAt(q, i', j)
    ensures r.None? ==> forall i', j :: i <= i' ==> !QuotedAt(q, i', j)
    decreases |q| - i
  {
    if i >= |q| then None
    else if q[i] == '"' then
      match CloseQuote(q, i + 1)
      case Some(j) => Some((i, j))
      case None => FindFrom(q, i + 1)
    else FindFrom(q, i + 1)
  }

  /** The doc id `executeSQL` reads from a query: group 1 of the first match of DOC_PATTERN, if any. */
  function FindQuoted(q: string): (r: Option<string>)
    ensures r.None? <==> forall i, j :: !QuotedAt(q, i, j)
    ensures r.Some? ==> exists i, j :: QuotedAt(q, i, j) && r.value == q[i + 1..j]
                          && forall i', j' :: QuotedAt(q, i', j') ==> i <= i'
  {
    match FindFrom(q, 0)
    case None => None
    case Some((i, j)) => Some(q[i + 1..j])
  }

  /**
   * A query that carries a display identifier between the first two quotes
   * gives that identifier back, whatever follows.
   */
  lemma ExtractQuoted(before: string, d: string, after: string)
    requires forall m :: 0 <= m < |before| ==> before[m] != '"'
    requires forall m :: 0 <= m < |d| ==> d[m] != '"' && !IsLineTerminator(d[m])
    ensures FindQuoted(before + "\"" + d + "\"" + after) == Some(d)
  {
    var q := before + "\"" + d + "\"" + after;
    var i, j := |before|, |before| + 1 + |d|;
    assert QuotedAt(q, i, j);
    assert q[i + 1..j] == d;
    forall m | 0 <= m < i ensures q[m] != '"' { assert q[m] == before[m]; }
    forall m | i < m < j ensures q[m] == d[m - i - 1] { }
    var found := FindQuoted(q);
    var i0, j0 :| QuotedAt(q, i0, j0) && found.value == q[i0 + 1..j0]
                  && forall i', j' :: QuotedAt(q, i', j') ==> i0 <= i';
    assert i0 == i;
    CloseUnique(q, i + 1, j, j0);
  }

  /** The lazy group ends at the first quote, so a match is determined by its start. */
  lemma CloseUnique(q: string, k: int, j: int, j': int)
    requires ClosesAt(q, k, j) && ClosesAt(q, k, j')
    ensures j == j'
  {
  }

  // ---------------------------------------------------------------------------
  // DOC_ID_PATTERN with Matcher.matches

  /**
   * `<.+>::.+` can split `s` at `p`: `>::` starts at `p`, at least one
   * character lies between the `<` at 0 and `p`, and at least one follows `::`.
   */
  predicate SplitsAt(s: string, p: int) {
    2 <= p && p + 3 < |s| && OccursAt(s, ">::", p)
  }

  /** The whole of `s` matches `<.+>::.+`, with the first `.+` ending just before `p`. */
  predicate MatchesAt(s: string, p: int) {
    |s| > 0 && s[0] == '<' && NoLineTerminator(s) && SplitsAt(s, p)
  }

  /** The greedy `.+`: the largest split point not above `p`. */
  function LastSplit(s: string, p: int): (r: Option<nat>)
    ensures r.Some? ==> r.value <= p && SplitsAt(s, r.value)
    ensures r.Some? ==> forall p' :: r.value < p' <= p ==> !SplitsAt(s, p')
    ensures r.None? ==> forall p' :: p' <= p ==> !SplitsAt(s, p')
    decreases p
  {
    if p < 2 then None
    else if SplitsAt(s, p) then Some(p)
    else LastSplit(s, p - 1)
  }

  /**
   * Group 1 of DOC_ID_PATTERN when the whole id matches it: the longest
   * prefix `<...>::` that still leaves a non-empty remainder.
   */
  function DocIdPrefix(s: string): (r: Option<string>)
    ensures r.None? <==> forall p :: !MatchesAt(s, p)
    ensures r.Some? ==> exists p :: MatchesAt(s, p) && r.value == s[..p + 3]
                          && forall p' :: MatchesAt(s, p') ==> p' <= p
  {
    if |s| > 0 && s[0] == '<' && NoLineTerminator(s) then
      match LastSplit(s, |s| - 4)
      case None => None
      case Some(p) => assert MatchesAt(s, p); Some(s[..p + 3])
    else None
  }

  /** Characters that make a string mean something other than itself as a java.util.regex pattern. */
  predicate IsRegexMeta(c: char) {
    c == '\\' || c == '^' || c == '$' || c == '.' || c == '|' || c == '?' || c == '*' ||
    c == '+' || c == '(' || c == ')' || c == '[' || c == ']' || c == '{' || c == '}'
  }

  predicate IsLiteralPattern(s: string) {
    forall i :: 0 <= i < |s| ==> !IsRegexMeta(s[i])
  }

  /**
   * The id `getDocument` looks up for a display identifier. When the
   * identifier matches DOC_ID_PATTERN, group 1 is handed to
   * `replaceFirst` as a regular expression: a group without metacharacters
   * matches only itself, and its first occurrence is removed; any other group
   * is given to `replaceFirstPattern`, which stands for Java's
   * `s.replaceFirst(pattern, "")` and answers None when the pattern does not
   * compile.
   */
  function Decode(display: string, replaceFirstPattern: (string, string) -> Option<string>): (r: Option<string>)
    ensures DocIdPrefix(display).None? ==> r == Some(display)
    ensures DocIdPrefix(display).Some? && IsLiteralPattern(DocIdPrefix(display).value) ==>
              r == Some(display[|DocIdPrefix(display).value|..])
  {
    match DocIdPrefix(display)
    case None => Some(display)
    case Some(g) =>
      if IsLiteralPattern(g) then
        RemoveFirstAt(display, g, 0);
        Some(RemoveFirst(display, g))
      else replaceFirstPattern(display, g)
  }

  /** `id` holds `>::` with at least one character after it. */
  predicate HasInnerSeparator(id: string) {
    exists q :: 0 <= q && q + 3 < |id| && OccursAt(id, ">::", q)
  }

  /** When the typed display identifier `<t>::id` decodes back to `id`. */
  predicate RoundTrips(t: string, id: string) {
    t != [] && id != [] && NoLineTerminator(t) && NoLineTerminator(id) && !HasInnerSeparator(id)
  }

  lemma NoLineTerminatorConcat(a: string, b: string)
    ensures NoLineTerminator(a + b) <==> NoLineTerminator(a) && NoLineTerminator(b)
  {
    if NoLineTerminator(a + b) {
      forall m | 0 <= m < |a| ensures !IsLineTerminator(a[m]) { assert a[m] == (a + b)[m]; }
      forall m | 0 <= m < |b| ensures !IsLineTerminator(b[m]) { assert b[m] == (a + b)[|a| + m]; }
    }
    if NoLineTerminator(a) && NoLineTerminator(b) {
      forall m | 0 <= m < |a + b| ensures !IsLineTerminator((a + b)[m]) {
        if m < |a| { assert (a + b)[m] == a[m]; } else { assert (a + b)[m] == b[m - |a|]; }
      }
    }
  }

  lemma LiteralConcat(a: string, b: string)
    ensures IsLiteralPattern(a + b) <==> IsLiteralPattern(a) && IsLiteralPattern(b)
  {
    if IsLiteralPattern(a + b) {
      forall m | 0 <= m < |a| ensures !IsRegexMeta(a[m]) { assert a[m] == (a + b)[m]; }
      forall m | 0 <= m < |b| ensures !IsRegexMeta(b[m]) { assert b[m] == (a + b)[|a| + m]; }
    }
    if IsLiteralPattern(a) && IsLiteralPattern(b) {
      forall m | 0 <= m < |a + b| ensures !IsRegexMeta((a + b)[m]) {
        if m < |a| { assert (a + b)[m] == a[m]; } else { assert (a + b)[m] == b[m - |a|]; }
      }
    }
  }

  /** A `>::` of `<t>::id` after the one that closes the type lies inside `id`. */
  lemma LaterSeparator(t: string, id: string, p: int)
    requires OccursAt(Encode(Row(id, Some(t))), ">::", p) && |t| + 1 < p
    ensures |t| + 4 <= p && OccursAt(id, ">::", p - |t| - 4)
  {
    var s := Encode(Row(id, Some(t)));
    assert s == "<" + t + ">::" + id;
    assert s[|t| + 2] == ':' && s[|t| + 3] == ':';
    assert s[p..p + 3] == ">::";
    assert s[p] == s[p..p + 3][0] == '>';
    assert s[p..p + 3] == id[p - |t| - 4..p - |t| - 1];
  }

  /** A `>::` inside `id` is a `>::` of `<t>::id`. */
  lemma InnerSeparator(t: string, id: string, q: int)
    requires OccursAt(id, ">::", q)
    ensures OccursAt(Encode(Row(id, Some(t))), ">::", |t| + 4 + q)
  {
    var s := Encode(Row(id, Some(t)));
    assert s == "<" + t + ">::" + id;
    assert s[|t| + 4 + q..|t| + 4 + q + 3] == id[q..q + 3];
  }

  /** With a non-empty type, `<t>::id` matches DOC_ID_PATTERN and group 1 is `<t>::`. */
  lemma TypedPrefix(t: string, id: string)
    requires RoundTrips(t, id)
    ensures DocIdPrefix(Encode(Row(id, Some(t)))) == Some("<" + t + ">::")
  {
    var s := Encode(Row(id, Some(t)));
    var pre := "<" + t + ">::";
    assert s == pre + id;
    var p0 := |t| + 1;
    assert s[p0..p0 + 3] == pre[p0..p0 + 3] == ">::";
    NoLineTerminatorConcat("<", t);
    NoLineTerminatorConcat("<" + t, ">::");
    NoLineTerminatorConcat(pre, id);
    assert MatchesAt(s, p0);
    var g := DocIdPrefix(s).value;
    var p :| MatchesAt(s, p) && g == s[..p + 3] && forall p' :: MatchesAt(s, p') ==> p' <= p;
    assert p == p0 by {
      if p != p0 { LaterSeparator(t, id, p); }
    }
  }

  /**
   * A display identifier free of regex metacharacters that matches
   * DOC_ID_PATTERN loses exactly its greedy group 1, which ends at the
   * returned split point.
   */
  lemma DecodeLiteral(s: string, replaceFirstPattern: (string, string) -> Option<string>) returns (p: int)
    requires IsLiteralPattern(s) && DocIdPrefix(s).Some?
    ensures MatchesAt(s, p) && forall p' :: MatchesAt(s, p') ==> p' <= p
    ensures Decode(s, replaceFirstPattern) == Some(s[p + 3..])
  {
    var g := DocIdPrefix(s).value;
    p :| MatchesAt(s, p) && g == s[..p + 3] && forall p' :: MatchesAt(s, p') ==> p' <= p;
    assert IsLiteralPattern(g) by {
      forall m | 0 <= m < |g| ensures !IsRegexMeta(g[m]) { assert g[m] == s[m]; }
    }
  }

  /**
   * Decoding a typed display identifier gives back the raw id when the type
   * is non-empty and free of regex metacharacters, the id is non-empty,
   * neither holds a line terminator, and the id has no inner `>::` that the
   * greedy group would reach.
   */
  lemma DecodeEncodeTyped(t: string, id: string, replaceFirstPattern: (string, string) -> Option<string>)
    requires RoundTrips(t, id)
    requires IsLiteralPattern(t)
    ensures Decode(Encode(Row(id, Some(t))), replaceFirstPattern) == Some(id)
  {
    var s := Encode(Row(id, Some(t)));
    var pre := "<" + t + ">::";
    assert s == pre + id;
    TypedPrefix(t, id);
    LiteralConcat("<", t);
    LiteralConcat("<" + t, ">::");
    assert IsLiteralPattern(pre);
    assert s[|pre|..] == id;
  }

  /**
   * For a type and an id free of regex metacharacters, the conditions of
   * DecodeEncodeTyped are also necessary: when one fails, decoding
   * `<t>::id` does not give `id`.
   */
  lemma DecodeEncodeTypedOnlyIf(t: string, id: string, replaceFirstPattern: (string, string) -> Option<string>)
    requires IsLiteralPattern(t) && IsLiteralPattern(id)
    ensures Decode(Encode(Row(id, Some(t))), replaceFirstPattern) == Some(id) ==> RoundTrips(t, id)
  {
    var s := Encode(Row(id, Some(t)));
    var pre := "<" + t + ">::";
    assert s == pre + id;
    LiteralConcat("<", t);
    LiteralConcat("<" + t, ">::");
    LiteralConcat(pre, id);
    match DocIdPrefix(s)
    case None =>
      assert Decode(s, replaceFirstPattern) == Some(s);
      assert |s| != |id|;
    case Some(g) =>
      var p := DecodeLiteral(s, replaceFirstPattern);
      if p == |t| + 1 {
        NoLineTerminatorConcat("<", t);
        NoLineTerminatorConcat("<" + t, ">::");
        NoLineTerminatorConcat(pre, id);
        forall q | 0 <= q && q + 3 < |id| ensures !OccursAt(id, ">::", q) {
          if OccursAt(id, ">::", q) {
            InnerSeparator(t, id, q);
            assert MatchesAt(s, |t| + 4 + q);
          }
        }
      } else {
        assert |s[p + 3..]| != |id|;
      }
  }

  /** Both directions: exactly when a typed display identifier decodes to its raw id. */
  lemma DecodeEncodeTypedIff(t: string, id: string, replaceFirstPattern: (string, string) -> Option<string>)
    requires IsLiteralPattern(t) && IsLiteralPattern(id)
    ensures Decode(Encode(Row(id, Some(t))), replaceFirstPattern) == Some(id) <==> RoundTrips(t, id)
  {
    DecodeEncodeTypedOnlyIf(t, id, replaceFirstPattern);
    if RoundTrips(t, id) { DecodeEncodeTyped(t, id, replaceFirstPattern); }
  }

  /**
   * An untyped display identifier is its raw id; decoding leaves it alone
   * exactly when it does not itself match DOC_ID_PATTERN (for ids free of
   * regex metacharacters).
   */
  lemma DecodeEncodeUntyped(id: string, replaceFirstPattern: (string, string) -> Option<string>)
    requires IsLiteralPattern(id)
    ensures Decode(Encode(Row(id, None)), replaceFirstPattern) == Some(id) <==> forall p :: !MatchesAt(id, p)
  {
    if DocIdPrefix(id).Some? {
      var p := DecodeLiteral(id, replaceFirstPattern);
    }
  }
}
