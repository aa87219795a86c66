/** The `std::string` searches the helpers are built on. `std::string::npos`
    is `None`. */
module StdString {
  import opened Results

  /** `t` occurs in `s` at position i, compared character by character. */
  predicate MatchAt(s: string, t: string, i: nat)
    decreases |t|
  {
    i + |t| <= |s| && (|t| == 0 || (s[i] == t[0] && MatchAt(s, t[1..], i + 1)))
  }

  /** The same as comparing the slice s[i..i + |t|] with t. */
  lemma {:induction false} MatchAtSlice(s: string, t: string, i: nat)
    decreases |t|
    ensures MatchAt(s, t, i) <==> i + |t| <= |s| && s[i..i + |t|] == t
  {
    if |t| > 0 && i + |t| <= |s| {
      MatchAtSlice(s, t[1..], i + 1);
      var w := s[i..i + |t|];
      assert w == [s[i]] + s[i + 1..i + 1 + |t[1..]|];
      assert t == [t[0]] + t[1..];
    }
  }

  /** `s.find(t, from)`: the first position at or after `from` where `t`
      occurs; an empty `t` occurs at every position up to `|s|`. */
  function Find(s: string, t: string, from: nat): (r: Option<nat>)
    decreases |s| - from
    ensures r.Some? ==> from <= r.value && r.value + |t| <= |s| && MatchAt(s, t, r.value)
    ensures forall i: nat :: from <= i && (r.None? || i < r.value) ==> !MatchAt(s, t, i)
  {
    if from + |t| > |s| then None
    else if MatchAt(s, t, from) then Some(from)
    else Find(s, t, from + 1)
  }

  /** `s.find_first_not_of(chars, from)`: the first position at or after
      `from` whose character is not one of `chars`. */
  function FindFirstNotOf(s: string, chars: string, from: nat): (r: Option<nat>)
    decreases |s| - from
    ensures r.Some? ==> from <= r.value < |s| && s[r.value] !in chars
    ensures forall i :: from <= i < |s| && (r.None? || i < r.value) ==> s[i] in chars
  {
    if from >= |s| then None
    else if s[from] !in chars then Some(from)
    else FindFirstNotOf(s, chars, from + 1)
  }

  /** `s.find_last_not_of(c)`, searching below `end`. */
  function FindLastNotOf(s: string, c: char, end: nat): (r: Option<nat>)
    requires end <= |s|
    ensures r.Some? ==> r.value < end && s[r.value] != c
    ensures forall i :: 0 <= i < end && (r.None? || r.value < i) ==> s[i] == c
  {
    if end == 0 then None
    else if s[end - 1] != c then Some(end - 1)
    else FindLastNotOf(s, c, end - 1)
  }
}
