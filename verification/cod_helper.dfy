/** The string helpers of the `.cod` reader (`CodHelper`). Characters are
    `char`; `std::isdigit` is the C locale's '0' .. '9'. */
module CodHelper {
  import opened Results
  import opened StdString

  // ---------------------------------------------------------------------
  // SplitByDelimiter and its reference: the non-empty fields
  // ---------------------------------------------------------------------

  /** The loop of `SplitByDelimiter` from position `end` on: skip
      characters of `delim`, then take everything up to the next
      occurrence of the whole `delim` (or to the end of the string). */
  function SplitFrom(s: string, delim: string, end: nat): (r: seq<string>)
    requires |delim| > 0 && end <= |s|
    decreases |s| - end
    ensures forall k :: 0 <= k < |r| ==> |r[k]| > 0 && r[k][0] !in delim
    ensures forall k, i: nat :: 0 <= k < |r| ==> !MatchAt(r[k], delim, i)
  {
    match FindFirstNotOf(s, delim, end)
    case None => []
    case Some(start) =>
      match Find(s, delim, start)
      case None =>
        NoMatchInSlice(s, delim, start, |s|);
        assert s[start..] == s[start..|s|];
        [s[start..]]
      case Some(e) =>
        assert s[e..e + |delim|][0] == delim[0];
        NoMatchInSlice(s, delim, start, e);
        [s[start..e]] + SplitFrom(s, delim, e)
  }

  /** A match inside s[a..b] is a match in s before b. */
  lemma NoMatchInSlice(s: string, t: string, a: nat, b: nat)
    requires a <= b <= |s|
    requires forall i: nat :: a <= i && i + |t| <= b ==> !MatchAt(s, t, i)
    ensures forall i: nat :: !MatchAt(s[a..b], t, i)
  {
    forall i: nat | MatchAt(s[a..b], t, i)
      ensures false
    {
      MatchAtSlice(s[a..b], t, i);
      SliceOfSlice(s, a, b, i, i + |t|);
      MatchAtSlice(s, t, a + i);
    }
  }

  lemma SliceOfSlice(s: string, a: nat, b: nat, i: nat, j: nat)
    requires a <= b <= |s| && i <= j <= b - a
    ensures s[a..b][i..j] == s[a + i..a + j]
  {
    var x, y := s[a..b][i..j], s[a + i..a + j];
    assert |x| == |y|;
    forall k | 0 <= k < |x|
      ensures x[k] == y[k]
    {
      assert x[k] == s[a..b][i + k];
    }
  }

  /** `SplitByDelimiter`: the tokens are non-empty, start with a
      character outside `delim`, and contain no occurrence of `delim`. An
      empty string has no tokens; an empty delimiter on any other string
      would make the source loop forever. */
  function SplitByDelimiter(s: string, delim: string): (r: seq<string>)
    requires |delim| > 0 || |s| == 0
    ensures |s| == 0 ==> r == []
    ensures forall k :: 0 <= k < |r| ==> |r[k]| > 0 && r[k][0] !in delim
    ensures forall k, i: nat :: 0 <= k < |r| ==> !MatchAt(r[k], delim, i)
  {
    if |s| == 0 then [] else SplitFrom(s, delim, 0)
  }

  /** `TrimCommentFromLine`: the line cut at every ';'. */
  function TrimCommentFromLine(s: string): (r: seq<string>)
    ensures forall k :: 0 <= k < |r| ==> |r[k]| > 0 && ';' !in r[k]
  {
    var r := SplitByDelimiter(s, ";");
    assert forall k :: 0 <= k < |r| ==> ';' !in r[k] by {
      forall k, i | 0 <= k < |r| && 0 <= i < |r[k]|
        ensures r[k][i] != ';'
      {
        assert !MatchAt(r[k], ";", i);
        assert r[k][i..i + 1] == [r[k][i]];
      }
    }
    r
  }

  /** The first index of c in s. */
  function IndexOf(s: string, c: char): (i: nat)
    requires c in s
    ensures i < |s| && s[i] == c && c !in s[..i]
  {
    if s[0] == c then 0
    else
      var j := IndexOf(s[1..], c);
      assert s[..j + 1] == [s[0]] + s[1..][..j];
      j + 1
  }

  /** The fields of s between the occurrences of c, empty ones included:
      k occurrences of c give k + 1 fields. */
  function Fields(s: string, c: char): (r: seq<string>)
    decreases |s|
    ensures |r| > 0
    ensures forall k :: 0 <= k < |r| ==> c !in r[k]
  {
    if c !in s then [s]
    else
      var i := IndexOf(s, c);
      [s[..i]] + Fields(s[i + 1..], c)
  }

  function NonEmpty(xs: seq<string>): (r: seq<string>)
    ensures forall k :: 0 <= k < |r| ==> |r[k]| > 0
  {
    if |xs| == 0 then []
    else if |xs[0]| == 0 then NonEmpty(xs[1..])
    else [xs[0]] + NonEmpty(xs[1..])
  }

  lemma MatchOneChar(s: string, c: char, i: nat)
    ensures MatchAt(s, [c], i) <==> i < |s| && s[i] == c
  {
    if i < |s| {
      assert s[i..i + 1] == [s[i]];
    }
  }

  /** A delimiter character at `end` is skipped without producing a token. */
  lemma {:induction false} SplitSkips(s: string, delim: string, end: nat)
    requires |delim| > 0 && end < |s| && s[end] in delim
    ensures SplitFrom(s, delim, end) == SplitFrom(s, delim, end + 1)
  {
    assert FindFirstNotOf(s, delim, end) == FindFirstNotOf(s, delim, end + 1);
  }

  /** With a one-character delimiter, `SplitByDelimiter` from `end` on
      gives the non-empty fields of s[end..]. */
  lemma {:induction false} SplitFromIsFields(s: string, c: char, end: nat)
    requires end <= |s|
    decreases |s| - end
    ensures SplitFrom(s, [c], end) == NonEmpty(Fields(s[end..], c))
  {
    var t := s[end..];
    if end == |s| {
      assert t == [];
    } else if s[end] == c {
      SplitSkips(s, [c], end);
      SplitFromIsFields(s, c, end + 1);
      FieldsSkip(t, c);
      assert t[1..] == s[end + 1..];
    } else {
      assert FindFirstNotOf(s, [c], end) == Some(end);
      match Find(s, [c], end)
      case None =>
        SplitLastToken(s, c, end);
      case Some(e) =>
        assert MatchAt(s, [c], e);
        SplitFromIsFields(s, c, e + 1);
        SplitMiddleToken(s, c, end, e);
    }
  }

  /** No delimiter after `end`: one token, the rest of the string. */
  lemma SplitLastToken(s: string, c: char, end: nat)
    requires end < |s| && s[end] != c && Find(s, [c], end).None?
    ensures SplitFrom(s, [c], end) == NonEmpty(Fields(s[end..], c))
  {
    var t := s[end..];
    assert FindFirstNotOf(s, [c], end) == Some(end);
    forall i | 0 <= i < |t|
      ensures t[i] != c
    {
      MatchOneChar(s, c, end + i);
    }
    assert c !in t;
    assert Fields(t, c) == [t];
    assert NonEmpty([t]) == [t] + NonEmpty([]);
  }

  /** The next delimiter is at e: the token s[end..e], then the split
      after e, whose fields are given. */
  lemma SplitMiddleToken(s: string, c: char, end: nat, e: nat)
    requires end < |s| && s[end] != c && Find(s, [c], end) == Some(e)
    requires e < |s| && SplitFrom(s, [c], e + 1) == NonEmpty(Fields(s[e + 1..], c))
    ensures SplitFrom(s, [c], end) == NonEmpty(Fields(s[end..], c))
  {
    assert end < e && SplitFrom(s, [c], end) == [s[end..e]] + SplitFrom(s, [c], e + 1) by {
      NoCharBefore(s, c, end, e);
      SplitStep(s, [c], end, e);
      SplitSkips(s, [c], e);
    }
    assert NonEmpty(Fields(s[end..], c)) == [s[end..e]] + NonEmpty(Fields(s[e + 1..], c)) by {
      NoCharBefore(s, c, end, e);
      MiddleFields(s, c, end, e);
    }
  }

  /** The fields of s[end..] when the first c in it is at e > end. */
  lemma MiddleFields(s: string, c: char, end: nat, e: nat)
    requires end < e < |s| && s[e] == c
    requires forall i :: end <= i < e ==> s[i] != c
    ensures NonEmpty(Fields(s[end..], c)) == [s[end..e]] + NonEmpty(Fields(s[e + 1..], c))
  {
    var t := s[end..];
    forall i | 0 <= i < e - end
      ensures t[i] != c
    {
      assert t[i] == s[end + i];
    }
    FieldsFirst(t, c, e - end);
    assert t[..e - end] == s[end..e];
    assert t[e - end + 1..] == s[e + 1..];
  }

  lemma NoCharBefore(s: string, c: char, end: nat, e: nat)
    requires end < |s| && s[end] != c && Find(s, [c], end) == Some(e)
    ensures end < e < |s| && s[e] == c
    ensures forall i :: end <= i < e ==> s[i] != c
  {
    MatchOneChar(s, c, e);
    forall i | end <= i < e
      ensures s[i] != c
    {
      assert !MatchAt(s, [c], i);
      MatchOneChar(s, c, i);
    }
  }

  /** One turn of the loop: the token up to the delimiter at e. */
  lemma SplitStep(s: string, delim: string, end: nat, e: nat)
    requires |delim| > 0 && end < |s| && s[end] !in delim && Find(s, delim, end) == Some(e)
    ensures SplitFrom(s, delim, end) == [s[end..e]] + SplitFrom(s, delim, e)
  {
    assert FindFirstNotOf(s, delim, end) == Some(end);
  }

  lemma FieldsSkip(t: string, c: char)
    requires |t| > 0 && t[0] == c
    ensures NonEmpty(Fields(t, c)) == NonEmpty(Fields(t[1..], c))
  {
    assert IndexOf(t, c) == 0;
    assert Fields(t, c) == [t[..0]] + Fields(t[1..], c);
  }

  lemma FieldsFirst(t: string, c: char, j: nat)
    requires 0 < j < |t| && t[j] == c && forall i :: 0 <= i < j ==> t[i] != c
    ensures NonEmpty(Fields(t, c)) == [t[..j]] + NonEmpty(Fields(t[j + 1..], c))
  {
    FirstIndex(t, c, j);
    assert Fields(t, c) == [t[..j]] + Fields(t[j + 1..], c);
  }

  lemma FirstIndex(t: string, c: char, j: nat)
    requires j < |t| && t[j] == c && forall i :: 0 <= i < j ==> t[i] != c
    ensures c in t && IndexOf(t, c) == j
  {
    var k := IndexOf(t, c);
  }

  /** With a one-character delimiter, `SplitByDelimiter` gives exactly the
      non-empty fields between the delimiters, in order. */
  lemma SplitIsNonEmptyFields(s: string, c: char)
    ensures SplitByDelimiter(s, [c]) == NonEmpty(Fields(s, c))
  {
    SplitFromIsFields(s, c, 0);
    assert s[0..] == s;
  }

  /** s with every c removed. */
  function RemoveChar(s: string, c: char): (r: string)
    ensures c !in r
  {
    if |s| == 0 then []
    else (if s[0] == c then [] else [s[0]]) + RemoveChar(s[1..], c)
  }

  function Flatten(xs: seq<string>): string
  {
    if |xs| == 0 then [] else xs[0] + Flatten(xs[1..])
  }

  lemma {:induction false} RemoveCharAppend(a: string, b: string, c: char)
    ensures RemoveChar(a + b, c) == RemoveChar(a, c) + RemoveChar(b, c)
    decreases |a|
  {
    if |a| == 0 {
      assert a + b == b;
    } else {
      assert (a + b)[1..] == a[1..] + b;
      RemoveCharAppend(a[1..], b, c);
    }
  }

  lemma {:induction false} RemoveCharAbsent(s: string, c: char)
    requires c !in s
    ensures RemoveChar(s, c) == s
    decreases |s|
  {
    if |s| > 0 {
      assert s == [s[0]] + s[1..];
      RemoveCharAbsent(s[1..], c);
    }
  }

  /** Together the fields are s without its c's. */
  lemma {:induction false} FieldsContent(s: string, c: char)
    ensures Flatten(Fields(s, c)) == RemoveChar(s, c)
    decreases |s|
  {
    if c !in s {
      RemoveCharAbsent(s, c);
    } else {
      var i := IndexOf(s, c);
      var rest := Fields(s[i + 1..], c);
      FieldsContent(s[i + 1..], c);
      RemoveAtFirst(s, c, i);
      assert Fields(s, c) == [s[..i]] + rest;
      FlattenCons(s[..i], rest);
    }
  }

  lemma FlattenCons(x: string, ys: seq<string>)
    ensures Flatten([x] + ys) == x + Flatten(ys)
  {
    assert ([x] + ys)[1..] == ys;
  }

  /** Removing c from s, whose first c is at i. */
  lemma RemoveAtFirst(s: string, c: char, i: nat)
    requires i < |s| && s[i] == c && c !in s[..i]
    ensures RemoveChar(s, c) == s[..i] + RemoveChar(s[i + 1..], c)
  {
    assert s == s[..i] + ([c] + s[i + 1..]);
    RemoveCharAppend(s[..i], [c] + s[i + 1..], c);
    RemoveCharAbsent(s[..i], c);
    assert ([c] + s[i + 1..])[1..] == s[i + 1..];
  }

  lemma {:induction false} NonEmptyKeeps(xs: seq<string>, c: char)
    requires forall k :: 0 <= k < |xs| ==> c !in xs[k]
    ensures forall k :: 0 <= k < |NonEmpty(xs)| ==> c !in NonEmpty(xs)[k]
    ensures Flatten(NonEmpty(xs)) == Flatten(xs)
    decreases |xs|
  {
    if |xs| > 0 {
      NonEmptyKeeps(xs[1..], c);
      if |xs[0]| == 0 {
        assert xs[0] + Flatten(xs[1..]) == Flatten(xs[1..]);
      }
    }
  }

  /** With a one-character delimiter the tokens are non-empty, free of the
      delimiter, and concatenated in order give the string with its
      delimiters removed. */
  lemma SplitContent(s: string, c: char)
    ensures var r := SplitByDelimiter(s, [c]);
            (forall k :: 0 <= k < |r| ==> |r[k]| > 0 && c !in r[k])
            && Flatten(r) == RemoveChar(s, c)
  {
    SplitIsNonEmptyFields(s, c);
    FieldsContent(s, c);
    NonEmptyKeeps(Fields(s, c), c);
  }

  /** The part of a line before its first ';' is the first token, when it
      is not empty. */
  lemma TrimCommentKeepsCode(code: string, comment: string)
    requires |code| > 0 && ';' !in code
    ensures var r := TrimCommentFromLine(code + ";" + comment);
            |r| > 0 && r[0] == code
  {
    var s := code + ";" + comment;
    SplitIsNonEmptyFields(s, ';');
    assert s[|code|] == ';';
    FirstIndex(s, ';', |code|);
    assert s[..|code|] == code;
  }

  // ---------------------------------------------------------------------
  // Predicates
  // ---------------------------------------------------------------------

  /** `IsEmpty`: the string is empty or `find_first_not_of(' ')` finds
      nothing. */
  function IsEmpty(s: string): (b: bool)
    ensures b <==> forall i :: 0 <= i < |s| ==> s[i] == ' '
  {
    |s| == 0 || FindFirstNotOf(s, " ", 0).None?
  }

  /** `IsSubstring`: `find` succeeds; the empty string is a substring of
      every string. */
  function IsSubstring(s: string, sub: string): (b: bool)
    ensures b <==> exists i: nat :: MatchAt(s, sub, i)
  {
    var r := Find(s, sub, 0);
    if r.Some? then
      SomeMatch(s, sub, r.value);
      true
    else assert forall i: nat :: !MatchAt(s, sub, i); false
  }

  lemma SomeMatch(s: string, t: string, i: nat)
    requires MatchAt(s, t, i)
    ensures exists j: nat :: MatchAt(s, t, j)
  {
  }

  /** `t.rfind(b, 0)`: the last occurrence of b starting at or before 0. */
  function RFindAtStart(s: string, b: string): (r: Option<nat>)
    ensures r.Some? ==> r.value == 0
  {
    if MatchAt(s, b, 0) then Some(0) else None
  }

  /** `BeginsWith`: `rfind(b, 0) == 0`. */
  function BeginsWith(s: string, b: string): (r: bool)
    ensures r <==> |b| <= |s| && s[..|b|] == b
  {
    MatchAtSlice(s, b, 0);
    RFindAtStart(s, b) == Some(0)
  }

  /** A string begins with its prefixes, and a prefix is a substring. */
  lemma BeginsWithPrefix(b: string, rest: string)
    ensures BeginsWith(b + rest, b) && IsSubstring(b + rest, b)
  {
    assert (b + rest)[..|b|] == b;
    MatchAtSlice(b + rest, b, 0);
  }

  // ---------------------------------------------------------------------
  // RemoveDigits and RemoveTrailingCharacters
  // ---------------------------------------------------------------------

  predicate IsDigit(ch: char)
  {
    '0' <= ch <= '9'
  }

  /** `RemoveDigits`: `std::remove_if` with `std::isdigit`, then `erase`. */
  function RemoveDigits(s: string): (r: string)
    ensures forall i :: 0 <= i < |r| ==> !IsDigit(r[i])
    ensures forall ch :: !IsDigit(ch) ==> multiset(r)[ch] == multiset(s)[ch]
    ensures |r| <= |s|
  {
    if |s| == 0 then []
    else
      var rest := RemoveDigits(s[1..]);
      assert s == [s[0]] + s[1..];
      if IsDigit(s[0]) then rest else [s[0]] + rest
  }

  /** Order is kept: removing digits from a + b removes them from a and
      from b. */
  lemma {:induction false} RemoveDigitsAppend(a: string, b: string)
    ensures RemoveDigits(a + b) == RemoveDigits(a) + RemoveDigits(b)
    decreases |a|
  {
    if |a| == 0 {
      assert a + b == b;
    } else {
      assert (a + b)[1..] == a[1..] + b;
      RemoveDigitsAppend(a[1..], b);
    }
  }

  /** A string without digits is unchanged; so removing digits twice is
      removing them once. */
  lemma {:induction false} RemoveDigitsNoDigits(s: string)
    requires forall i :: 0 <= i < |s| ==> !IsDigit(s[i])
    ensures RemoveDigits(s) == s
    decreases |s|
  {
    if |s| > 0 {
      RemoveDigitsNoDigits(s[1..]);
    }
  }

  lemma RemoveDigitsIdempotent(s: string)
    ensures RemoveDigits(RemoveDigits(s)) == RemoveDigits(s)
  {
    RemoveDigitsNoDigits(RemoveDigits(s));
  }

  const TWO_64: int := 0x1_0000_0000_0000_0000
  /** `std::string::npos` as a `size_t`. */
  const NPOS: int := TWO_64 - 1

  /** `RemoveTrailingCharacters`: erase from `find_last_not_of(c) + 1`;
      when every character is c that is `npos + 1`, which wraps to 0 and
      erases everything. */
  function RemoveTrailingCharacters(s: string, c: char): (r: string)
    ensures |r| <= |s| && r == s[..|r|]
    ensures forall i :: |r| <= i < |s| ==> s[i] == c
    ensures |r| == 0 || r[|r| - 1] != c
  {
    var cut := match FindLastNotOf(s, c, |s|)
               case None => (NPOS + 1) % TWO_64
               case Some(p) => p + 1;
    s[..cut]
  }

  /** Stripping twice is stripping once, and a trailing c never matters. */
  lemma RemoveTrailingIdempotent(s: string, c: char)
    ensures RemoveTrailingCharacters(RemoveTrailingCharacters(s, c), c) == RemoveTrailingCharacters(s, c)
  {
    var r := RemoveTrailingCharacters(s, c);
    var r2 := RemoveTrailingCharacters(r, c);
    assert r2 == r[..|r2|];
  }

  lemma RemoveTrailingAppend(s: string, c: char)
    ensures RemoveTrailingCharacters(s + [c], c) == RemoveTrailingCharacters(s, c)
  {
    var a := RemoveTrailingCharacters(s + [c], c);
    var b := RemoveTrailingCharacters(s, c);
    assert (s + [c])[|s|] == c;
    assert |b| > 0 ==> (s + [c])[|b| - 1] == s[|b| - 1];
    assert 0 < |a| <= |s| ==> s[|a| - 1] == (s + [c])[|a| - 1];
    assert |a| == |b|;
  }
}
