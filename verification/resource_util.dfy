/** `ResourceUtil::FindAllOccurances`: the positions at which a search
    string occurs in a text, scanning left to right and resuming after each
    match, so the reported occurrences never overlap. */
module ResourceUtil {
  import opened Results
  import opened StdString

  /** The reference: the non-overlapping occurrences of `t` in `data` at or
      after `from`, leftmost first. */
  function Occurrences(data: string, t: string, from: nat): (r: seq<nat>)
    requires |t| > 0 && from <= |data|
    decreases |data| - from
    ensures forall k :: 0 <= k < |r| ==> from <= r[k] && MatchAt(data, t, r[k])
    ensures forall j, k :: 0 <= j < k < |r| ==> r[j] + |t| <= r[k]
  {
    match Find(data, t, from)
    case None => []
    case Some(p) => [p] + Occurrences(data, t, p + |t|)
  }

  /** One turn of the scan: a match at p, then the scan resumes after it. */
  lemma OccurrencesStep(data: string, t: string, from: nat, p: nat)
    requires |t| > 0 && from <= |data| && Find(data, t, from) == Some(p)
    ensures p + |t| <= |data|
    ensures Occurrences(data, t, from) == [p] + Occurrences(data, t, p + |t|)
  {
  }

  /** The loop: `find` from the start, then from just past each match,
      until `npos`; each position is appended to `positions`. */
  method FindAllOccurances(positions: seq<nat>, data: string, t: string) returns (r: seq<nat>)
    requires |t| > 0
    ensures r == positions + Occurrences(data, t, 0)
  {
    r := positions;
    var from := 0;
    var pos := Find(data, t, from);
    ghost var total := positions + Occurrences(data, t, 0);
    while pos.Some?
      invariant from <= |data| && pos == Find(data, t, from)
      invariant total == r + Occurrences(data, t, from)
      decreases |data| - from
    {
      var p := pos.value;
      Advance(data, t, from, p, r, total);
      r := r + [p];
      from := p + |t|;
      pos := Find(data, t, from);
    }
  }

  lemma Advance(data: string, t: string, from: nat, p: nat, r: seq<nat>, total: seq<nat>)
    requires |t| > 0 && from <= |data| && Find(data, t, from) == Some(p)
    requires total == r + Occurrences(data, t, from)
    ensures p + |t| <= |data| && total == (r + [p]) + Occurrences(data, t, p + |t|)
  {
    OccurrencesStep(data, t, from, p);
    assert r + ([p] + Occurrences(data, t, p + |t|)) == (r + [p]) + Occurrences(data, t, p + |t|);
  }

  /** Nothing is missed: every occurrence of `t` at or after `from` starts
      inside one of the reported matches, number k (it is reported, or
      overlaps the match the scan skipped it for). */
  lemma {:induction false} OccurrencesComplete(data: string, t: string, from: nat, i: nat) returns (k: nat)
    requires |t| > 0 && from <= |data|
    requires from <= i && MatchAt(data, t, i)
    ensures k < |Occurrences(data, t, from)|
    ensures Occurrences(data, t, from)[k] <= i < Occurrences(data, t, from)[k] + |t|
    decreases |data| - from
  {
    assert Find(data, t, from).Some?;
    var p := Find(data, t, from).value;
    OccurrencesStep(data, t, from, p);
    if i < p + |t| {
      k := 0;
    } else {
      var j := OccurrencesComplete(data, t, p + |t|, i);
      k := j + 1;
    }
  }

  /** For a one-character search string the positions are exactly the
      positions of that character. */
  lemma SingleCharOccurrences(data: string, ch: char, i: nat)
    requires i < |data|
    ensures i in Occurrences(data, [ch], 0) <==> data[i] == ch
  {
    var r := Occurrences(data, [ch], 0);
    MatchSingle(data, ch, i);
    if data[i] == ch {
      var k := OccurrencesComplete(data, [ch], 0, i);
      assert r[k] == i;
    }
  }

  lemma MatchSingle(s: string, ch: char, i: nat)
    requires i < |s|
    ensures MatchAt(s, [ch], i) <==> s[i] == ch
  {
    assert s[i..i + 1] == [s[i]];
  }

  /** Each reported match uses its own |t| characters of `data`. */
  lemma {:induction false} OccurrencesBound(data: string, t: string, from: nat)
    requires |t| > 0 && from <= |data|
    ensures |Occurrences(data, t, from)| * |t| <= |data| - from
    decreases |data| - from
  {
    match Find(data, t, from)
    case None =>
    case Some(p) =>
      OccurrencesStep(data, t, from, p);
      OccurrencesBound(data, t, p + |t|);
      BoundStep(|Occurrences(data, t, from)|, |Occurrences(data, t, p + |t|)|, |t|, |data|, p, from);
  }

  lemma BoundStep(m: nat, n: nat, w: nat, len: nat, p: nat, from: nat)
    requires m == n + 1 && from <= p && p + w <= len && n * w <= len - (p + w)
    ensures m * w <= len - from
  {
    assert m * w == n * w + w;
  }
}
