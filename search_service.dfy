/**
 * The search engine: exact search (case-insensitive, non-overlapping
 * substring matches), interval search (the query's characters in order,
 * each within `maxGap` characters of the previous one), result ordering
 * by match span, preview snippets, and the highlighted HTML shown for a
 * whole document.
 *
 * Every loop of the service is a method proved equal to a specification
 * function; what the service promises is proved about those functions.
 */
module SearchService {
  import opened JsString
  import opened Html
  import opened Types

  // =====================================================================
  // Exact search

  /** The starts of the occurrences of `q` that exact search reports when
      it scans `s` from `from`: the leftmost occurrence, then the leftmost
      one at or after its end, and so on. */
  function ExactStarts(s: string, q: string, from: nat): (starts: seq<int>)
    requires q != [] && from <= |s|
    ensures forall k :: 0 <= k < |starts| ==> from <= starts[k] <= |s| - |q|
    decreases |s| - from
  {
    var i := IndexOf(s, q, from);
    if i == -1 then [] else [i] + ExactStarts(s, q, i + |q|)
  }

  /** Each reported start is an occurrence of the query. */
  lemma {:induction false} ExactStartsOccur(s: string, q: string, from: nat)
    requires q != [] && from <= |s|
    ensures forall k :: 0 <= k < |ExactStarts(s, q, from)| ==> OccursAt(s, q, ExactStarts(s, q, from)[k])
    decreases |s| - from
  {
    var i := IndexOf(s, q, from);
    if i != -1 {
      var st := ExactStarts(s, q, from);
      var rest := ExactStarts(s, q, i + |q|);
      ExactStartsOccur(s, q, i + |q|);
      assert st == [i] + rest;
      forall k | 0 <= k < |st|
        ensures OccursAt(s, q, st[k])
      {
        if k > 0 {
          assert st[k] == rest[k - 1];
        }
      }
    }
  }

  /** Each reported start lies at or past the end of the one before, so
      the matches never overlap. */
  lemma {:induction false} ExactStartsApart(s: string, q: string, from: nat)
    requires q != [] && from <= |s|
    ensures forall k, l :: 0 <= k < l < |ExactStarts(s, q, from)| ==>
              ExactStarts(s, q, from)[k] + |q| <= ExactStarts(s, q, from)[l]
    decreases |s| - from
  {
    var i := IndexOf(s, q, from);
    if i != -1 {
      var st := ExactStarts(s, q, from);
      var rest := ExactStarts(s, q, i + |q|);
      ExactStartsApart(s, q, i + |q|);
      assert st == [i] + rest;
      forall k, l | 0 <= k < l < |st|
        ensures st[k] + |q| <= st[l]
      {
        assert st[l] == rest[l - 1];
        if k > 0 {
          assert st[k] == rest[k - 1];
        }
      }
    }
  }

  /** Every occurrence at or after `from` lies inside one of the reported
      matches, the `j`-th: the scan skips an occurrence only when it
      overlaps the previous match. */
  lemma {:induction false} ExactStartsCover(s: string, q: string, from: nat, k: nat) returns (j: nat)
    requires q != [] && from <= |s| && from <= k && OccursAt(s, q, k)
    ensures j < |ExactStarts(s, q, from)|
    ensures ExactStarts(s, q, from)[j] <= k < ExactStarts(s, q, from)[j] + |q|
    decreases |s| - from
  {
    var st := ExactStarts(s, q, from);
    var i := IndexOf(s, q, from);
    assert i != -1 && i <= k;
    var rest := ExactStarts(s, q, i + |q|);
    assert st == [i] + rest;
    if k >= i + |q| {
      var j' := ExactStartsCover(s, q, i + |q|, k);
      j := j' + 1;
      assert st[j] == rest[j'];
    } else {
      j := 0;
    }
  }

  /** The match record of an exact hit at `i` for a query of `n` characters. */
  function ExactMatch(i: int, n: nat): MatchInfo
  {
    MatchInfo(i, n, seq(n, k => i + k))
  }

  function MatchesAt(starts: seq<int>, n: nat): seq<MatchInfo>
  {
    seq(|starts|, k requires 0 <= k < |starts| => ExactMatch(starts[k], n))
  }

  /** The exact-search scan; with an empty query there is nothing to scan
      only because the content is empty too. */
  function ScanStarts(s: string, q: string, from: nat): seq<int>
    requires from <= |s|
  {
    if q == [] then [] else ExactStarts(s, q, from)
  }

  /** `findExactMatches`. An empty query is only handled for empty content:
      on any other content the scan never advances. */
  function ExactMatches(content: string, query: string): seq<MatchInfo>
    requires query != [] || content == []
  {
    MatchesAt(ScanStarts(Lower(content), Lower(query), 0), |query|)
  }

  lemma MatchesAtCons(i: int, rest: seq<int>, n: nat)
    ensures MatchesAt([i] + rest, n) == [ExactMatch(i, n)] + MatchesAt(rest, n)
  {
  }

  /** The offsets a hit at `index` covers, pushed one at a time. */
  method Offsets(index: int, n: nat) returns (positions: seq<int>)
    ensures positions == seq(n, k => index + k)
  {
    positions := [];
    for i := 0 to n
      invariant |positions| == i
      invariant forall k :: 0 <= k < i ==> positions[k] == index + k
    {
      positions := positions + [index + i];
    }
  }

  /** One pass of the exact scan: a hit at `index` is recorded and the
      scan resumes at its end, keeping the final result. */
  lemma ExactScanStep(s: string, q: string, n: nat, start: nat, matches: seq<MatchInfo>, all: seq<MatchInfo>, index: int)
    requires q != [] && start <= |s| && index == IndexOf(s, q, start) && index != -1
    requires matches + MatchesAt(ScanStarts(s, q, start), n) == all
    ensures start < index + |q| <= |s|
    ensures (matches + [ExactMatch(index, n)]) + MatchesAt(ScanStarts(s, q, index + |q|), n) == all
  {
    var rest := ScanStarts(s, q, index + |q|);
    assert ScanStarts(s, q, start) == [index] + rest;
    MatchesAtCons(index, rest, n);
    Assoc(matches, [ExactMatch(index, n)], MatchesAt(rest, n));
  }

  /** The exact scan ends when no occurrence is left from `start`. */
  lemma ExactScanStop(s: string, q: string, n: nat, start: nat, matches: seq<MatchInfo>, all: seq<MatchInfo>)
    requires start <= |s| && (q == [] || start == |s| || IndexOf(s, q, start) == -1)
    requires matches + MatchesAt(ScanStarts(s, q, start), n) == all
    ensures matches == all
  {
    assert ScanStarts(s, q, start) == [];
    assert matches + MatchesAt([], n) == matches;
  }

  method FindExactMatches(content: string, query: string) returns (matches: seq<MatchInfo>)
    requires query != [] || content == []
    ensures matches == ExactMatches(content, query)
  {
    var lowerContent := Lower(content);
    var lowerQuery := Lower(query);
    ghost var all := MatchesAt(ScanStarts(lowerContent, lowerQuery, 0), |query|);
    matches := [];
    var startIndex := 0;
    while startIndex < |content|
      invariant startIndex <= |content| == |lowerContent|
      invariant matches + MatchesAt(ScanStarts(lowerContent, lowerQuery, startIndex), |query|) == all
      decreases |content| - startIndex
    {
      var index := IndexOf(lowerContent, lowerQuery, startIndex);
      if index == -1 {
        break;
      }
      var positions := Offsets(index, |query|);
      ExactScanStep(lowerContent, lowerQuery, |query|, startIndex, matches, all, index);
      matches := matches + [MatchInfo(index, |query|, positions)];
      startIndex := index + |query|;
    }
    ExactScanStop(lowerContent, lowerQuery, |query|, startIndex, matches, all);
  }

  lemma LowerSlice(s: string, a: nat, b: nat)
    requires a <= b <= |s|
    ensures Lower(s[a..b]) == Lower(s)[a..b]
  {
  }

  /** Offset `p` lies inside the span of one of the matches. */
  predicate InSomeMatch(ms: seq<MatchInfo>, p: int)
  {
    exists k :: 0 <= k < |ms| && ms[k].index <= p < ms[k].index + ms[k].length
  }

  /** The shape of one exact match: the query's length, inside the content,
      the query up to case, at consecutive positions. */
  predicate ExactHit(content: string, query: string, m: MatchInfo)
  {
    && m.length == |query|
    && 0 <= m.index && m.index + |query| <= |content|
    && Lower(content[m.index..m.index + |query|]) == Lower(query)
    && |m.positions| == |query|
    && (forall i :: 0 <= i < |query| ==> m.positions[i] == m.index + i)
  }

  /** What exact search promises: every match is the query, up to case, at
      consecutive positions; matches are in order and never overlap; and
      every occurrence of the query lies inside some match. */
  lemma ExactMatchesSpec(content: string, query: string)
    requires query != []
    ensures forall m :: m in ExactMatches(content, query) ==> ExactHit(content, query, m)
    ensures forall k, l :: 0 <= k < l < |ExactMatches(content, query)| ==>
              ExactMatches(content, query)[k].index + ExactMatches(content, query)[k].length
              <= ExactMatches(content, query)[l].index
    ensures forall p :: OccursAt(Lower(content), Lower(query), p) ==> InSomeMatch(ExactMatches(content, query), p)
  {
    var lc := Lower(content);
    var lq := Lower(query);
    var st := ExactStarts(lc, lq, 0);
    var ms := ExactMatches(content, query);
    assert ms == MatchesAt(st, |query|);
    forall m | m in ms
      ensures ExactHit(content, query, m)
    {
      var k :| 0 <= k < |ms| && ms[k] == m;
      ExactStartsOccur(lc, lq, 0);
      assert OccursAt(lc, lq, st[k]);
      LowerSlice(content, st[k], st[k] + |query|);
    }
    forall k, l | 0 <= k < l < |ms|
      ensures ms[k].index + ms[k].length <= ms[l].index
    {
      ExactStartsApart(lc, lq, 0);
      assert ms[k].index == st[k] && ms[l].index == st[l];
    }
    forall p | OccursAt(lc, lq, p)
      ensures InSomeMatch(ms, p)
    {
      var j := ExactStartsCover(lc, lq, 0, p);
      assert ms[j].index == st[j];
    }
  }

  // =====================================================================
  // Interval search

  /** `s.indexOf(c, from)` for a one-character string `c`: the first offset
      at or after `from` holding `c`, or -1. */
  function FindChar(s: string, c: char, from: nat): (r: int)
    requires from <= |s|
    ensures r == -1 || (from <= r < |s| && s[r] == c)
    ensures forall k :: from <= k < |s| && (r == -1 || k < r) ==> s[k] != c
    decreases |s| - from
  {
    if from == |s| then -1
    else if s[from] == c then from
    else FindChar(s, c, from + 1)
  }

  /** The positions `findSingleIntervalMatch` collects from query character
      `i` on, having collected `acc` and resuming the scan at `cur`: each
      character at its first occurrence after the previous one, failing as
      soon as a character is missing or lies more than `maxGap` characters
      past the previous one. */
  function Chain(s: string, q: string, maxGap: int, i: nat, cur: nat, acc: seq<int>): Option<seq<int>>
    requires i <= |q| && |acc| == i && cur <= |s|
    decreases |q| - i
  {
    if i == |q| then Some(acc)
    else
      var f := FindChar(s, q[i], cur);
      if f == -1 then None
      else if i > 0 && f - acc[i - 1] - 1 > maxGap then None
      else Chain(s, q, maxGap, i + 1, f + 1, acc + [f])
  }

  /** Positions `ps[i..]` are the greedy choices after `acc`, scanning from
      `cur`: each holds its query character, none is more than `maxGap`
      characters past the one before, and each is the first occurrence of
      its character after the one before. */
  ghost predicate ChainFacts(s: string, q: string, maxGap: int, i: nat, cur: nat, ps: seq<int>)
  {
    && |ps| == |q| && i <= |q|
    && (forall k :: i <= k < |q| ==> cur <= ps[k] < |s| && s[ps[k]] == q[k])
    && (forall k :: i < k < |q| ==> ps[k - 1] < ps[k])
    && (forall k :: 0 < k < |q| && i <= k ==> ps[k] - ps[k - 1] - 1 <= maxGap)
    && (i < |q| ==> forall m :: cur <= m < ps[i] ==> s[m] != q[i])
    && (forall k, m :: i < k < |q| && ps[k - 1] < m < ps[k] ==> s[m] != q[k])
  }

  /** The facts for positions from `i + 1` on, together with the facts
      about the greedy choice at `i`, give the facts from `i` on. */
  lemma ChainFactsStep(s: string, q: string, maxGap: int, i: nat, cur: nat, f: nat, ps: seq<int>)
    requires |ps| == |q| && i < |q| && ps[i] == f && cur <= f < |s| && s[f] == q[i]
    requires ChainFacts(s, q, maxGap, i + 1, f + 1, ps)
    requires forall m :: cur <= m < f ==> s[m] != q[i]
    requires i > 0 ==> f - ps[i - 1] - 1 <= maxGap
    ensures ChainFacts(s, q, maxGap, i, cur, ps)
  {
    forall k | i <= k < |q|
      ensures cur <= ps[k] < |s| && s[ps[k]] == q[k]
    {
    }
    forall k | 0 < k < |q| && i <= k
      ensures ps[k] - ps[k - 1] - 1 <= maxGap
    {
    }
    forall k | i < k < |q|
      ensures ps[k - 1] < ps[k]
    {
      if k == i + 1 {
        assert ps[i] + 1 <= ps[k];
      }
    }
    forall k, m | i < k < |q| && ps[k - 1] < m < ps[k]
      ensures s[m] != q[k]
    {
      if k == i + 1 {
        assert ps[i] + 1 <= m;
      }
    }
  }

  lemma {:induction false} ChainSpec(s: string, q: string, maxGap: int, i: nat, cur: nat, acc: seq<int>)
    requires i <= |q| && |acc| == i && cur <= |s|
    ensures Chain(s, q, maxGap, i, cur, acc).Some? ==>
              && ChainFacts(s, q, maxGap, i, cur, Chain(s, q, maxGap, i, cur, acc).value)
              && Chain(s, q, maxGap, i, cur, acc).value[..i] == acc
    decreases |q| - i
  {
    if i < |q| {
      var f := FindChar(s, q[i], cur);
      if f != -1 && !(i > 0 && f - acc[i - 1] - 1 > maxGap) {
        var acc' := acc + [f];
        ChainSpec(s, q, maxGap, i + 1, f + 1, acc');
        assert Chain(s, q, maxGap, i, cur, acc) == Chain(s, q, maxGap, i + 1, f + 1, acc');
        match Chain(s, q, maxGap, i + 1, f + 1, acc')
        case None =>
        case Some(ps) =>
          ChainExtend(s, q, maxGap, i, cur, acc, f, ps);
      }
    }
  }

  /** The step of `ChainSpec`: positions that extend `acc + [f]` with the
      facts from `i + 1` on, where `f` is the greedy choice at `i`. */
  lemma ChainExtend(s: string, q: string, maxGap: int, i: nat, cur: nat, acc: seq<int>, f: nat, ps: seq<int>)
    requires i < |q| && |acc| == i && cur <= |s| && f == FindChar(s, q[i], cur)
    requires i > 0 ==> f - acc[i - 1] - 1 <= maxGap
    requires ChainFacts(s, q, maxGap, i + 1, f + 1, ps) && ps[..i + 1] == acc + [f]
    ensures ChainFacts(s, q, maxGap, i, cur, ps) && ps[..i] == acc
  {
    assert ps[..i] == acc by { assert ps[..i] == ps[..i + 1][..i]; }
    assert ps[i] == f by { assert ps[i] == ps[..i + 1][i]; }
    assert i > 0 ==> ps[i - 1] == acc[i - 1] by {
      if i > 0 { assert ps[i - 1] == ps[..i][i - 1]; }
    }
    ChainFactsStep(s, q, maxGap, i, cur, f, ps);
  }

  /** A well-formed interval hit on the lower-cased text `s` for the
      lower-cased query `q`: one ascending position per query character,
      holding that character, consecutive positions at most `maxGap` apart,
      and the span from the first position to the last. */
  ghost predicate IntervalHit(s: string, q: string, maxGap: int, m: MatchInfo)
  {
    && |m.positions| == |q| > 0
    && (forall k :: 0 <= k < |q| ==> 0 <= m.positions[k] < |s| && s[m.positions[k]] == q[k])
    && (forall k, l :: 0 <= k < l < |q| ==> m.positions[k] < m.positions[l])
    && (forall k :: 0 < k < |q| ==> m.positions[k] - m.positions[k - 1] - 1 <= maxGap)
    && m.index == m.positions[0]
    && m.length == m.positions[|q| - 1] - m.positions[0] + 1
  }

  /** Each position of the hit is the first occurrence of its character:
      the first at or after `start`, the others after the one before. */
  ghost predicate Greedy(s: string, q: string, start: nat, m: MatchInfo)
    requires |m.positions| == |q| > 0
  {
    && (forall j :: start <= j < m.positions[0] && j < |s| ==> s[j] != q[0])
    && (forall k, j :: 0 < k < |q| && m.positions[k - 1] < j < m.positions[k] && 0 <= j < |s| ==> s[j] != q[k])
  }

  /** `findSingleIntervalMatch(s, q, maxGap, start)`: the greedy chain
      starting at `start`, reported by its first position and its span. */
  function SingleMatch(s: string, q: string, maxGap: int, start: nat): (r: Option<MatchInfo>)
    requires start <= |s|
    ensures r.Some? ==> start <= r.value.index < |s|
    ensures r.Some? ==> r.value.positions != [] && r.value.index == r.value.positions[0]
  {
    ChainSpec(s, q, maxGap, 0, start, []);
    match Chain(s, q, maxGap, 0, start, [])
    case None => None
    case Some(ps) =>
      if ps == [] then None
      else Some(MatchInfo(ps[0], ps[|ps| - 1] - ps[0] + 1, ps))
  }

  lemma {:induction false} IncreasingAll(ps: seq<int>)
    requires forall k :: 0 < k < |ps| ==> ps[k - 1] < ps[k]
    ensures forall k, l :: 0 <= k < l < |ps| ==> ps[k] < ps[l]
  {
    if |ps| > 1 {
      IncreasingAll(ps[1..]);
      forall k, l | 0 <= k < l < |ps|
        ensures ps[k] < ps[l]
      {
        if k > 0 {
          assert ps[k] == ps[1..][k - 1] && ps[l] == ps[1..][l - 1];
        } else if l > 1 {
          assert ps[1] == ps[1..][0] && ps[l] == ps[1..][l - 1];
        }
      }
    }
  }

  /** A hit found from `start` begins at or after `start`, is a well-formed
      interval hit, and takes every character at its first occurrence. */
  lemma SingleMatchSpec(s: string, q: string, maxGap: int, start: nat)
    requires start <= |s|
    ensures SingleMatch(s, q, maxGap, start).Some? ==>
              && start <= SingleMatch(s, q, maxGap, start).value.index < |s|
              && IntervalHit(s, q, maxGap, SingleMatch(s, q, maxGap, start).value)
              && Greedy(s, q, start, SingleMatch(s, q, maxGap, start).value)
  {
    ChainSpec(s, q, maxGap, 0, start, []);
    var r := SingleMatch(s, q, maxGap, start);
    if r.Some? {
      var ps := r.value.positions;
      IncreasingAll(ps);
    }
  }

  method FindSingleIntervalMatch(content: string, query: string, maxGap: int, startFrom: nat)
    returns (r: Option<MatchInfo>)
    requires startFrom <= |content|
    ensures r == SingleMatch(content, query, maxGap, startFrom)
  {
    var positions: seq<int> := [];
    var currentPos: nat := startFrom;
    for i := 0 to |query|
      invariant |positions| == i && currentPos <= |content|
      invariant Chain(content, query, maxGap, i, currentPos, positions)
                == Chain(content, query, maxGap, 0, startFrom, [])
    {
      var ch := query[i];
      var foundPos := FindChar(content, ch, currentPos);
      if foundPos == -1 {
        return None;
      }
      if i > 0 && foundPos - positions[i - 1] - 1 > maxGap {
        return None;
      }
      positions := positions + [foundPos];
      currentPos := foundPos + 1;
    }
    if |positions| == 0 {
      return None;
    }
    r := Some(MatchInfo(positions[0], positions[|positions| - 1] - positions[0] + 1, positions));
  }

  /** The hits `findIntervalMatches` collects scanning from `start`: after
      each hit it resumes one past the hit's first position, and it stops at
      the first start from which no hit is found. */
  function IntervalFrom(s: string, q: string, maxGap: int, start: nat, acc: seq<MatchInfo>): seq<MatchInfo>
    decreases |s| - start
  {
    if start >= |s| then acc
    else
      match SingleMatch(s, q, maxGap, start)
      case None => acc
      case Some(m) => IntervalFrom(s, q, maxGap, m.index + 1, acc + [m])
  }

  /** Hits that are each well-formed, in increasing order of first
      position. */
  ghost predicate HitsInOrder(s: string, q: string, maxGap: int, ms: seq<MatchInfo>)
  {
    && (forall k :: 0 <= k < |ms| ==> IntervalHit(s, q, maxGap, ms[k]))
    && (forall k :: 0 < k < |ms| ==> ms[k - 1].index < ms[k].index)
  }

  lemma SingleMatchHit(s: string, q: string, maxGap: int, start: nat, m: MatchInfo)
    requires start <= |s| && SingleMatch(s, q, maxGap, start) == Some(m)
    ensures start <= m.index && IntervalHit(s, q, maxGap, m)
  {
    SingleMatchSpec(s, q, maxGap, start);
  }

  lemma HitsInOrderSnoc(s: string, q: string, maxGap: int, acc: seq<MatchInfo>, m: MatchInfo)
    requires HitsInOrder(s, q, maxGap, acc) && IntervalHit(s, q, maxGap, m)
    requires acc != [] ==> acc[|acc| - 1].index < m.index
    ensures HitsInOrder(s, q, maxGap, acc + [m])
  {
    var acc' := acc + [m];
    forall k | 0 <= k < |acc'|
      ensures IntervalHit(s, q, maxGap, acc'[k])
    {
      if k < |acc| { assert acc'[k] == acc[k]; }
    }
    forall k | 0 < k < |acc'|
      ensures acc'[k - 1].index < acc'[k].index
    {
      if k < |acc| { assert acc'[k - 1] == acc[k - 1] && acc'[k] == acc[k]; }
    }
  }

  /** The scan only ever appends to what it has collected. */
  lemma {:induction false} IntervalFromExtends(s: string, q: string, maxGap: int, start: nat, acc: seq<MatchInfo>)
    ensures acc <= IntervalFrom(s, q, maxGap, start, acc)
    decreases |s| - start
  {
    if start < |s| {
      var r := SingleMatch(s, q, maxGap, start);
      if r.Some? {
        var acc' := acc + [r.value];
        IntervalFromExtends(s, q, maxGap, r.value.index + 1, acc');
        var res := IntervalFrom(s, q, maxGap, start, acc);
        assert res == IntervalFrom(s, q, maxGap, r.value.index + 1, acc');
        assert res[..|acc|] == acc'[..|acc|] == acc;
      }
    }
  }

  /** The scan collects well-formed hits in increasing order. */
  lemma {:induction false} IntervalFromSpec(s: string, q: string, maxGap: int, start: nat, acc: seq<MatchInfo>)
    requires HitsInOrder(s, q, maxGap, acc)
    requires acc != [] ==> acc[|acc| - 1].index < start
    ensures HitsInOrder(s, q, maxGap, IntervalFrom(s, q, maxGap, start, acc))
    decreases |s| - start
  {
    if start >= |s| {
      assert IntervalFrom(s, q, maxGap, start, acc) == acc;
      return;
    }
    match SingleMatch(s, q, maxGap, start)
    case None =>
      IntervalFromStop(s, q, maxGap, start, acc);
    case Some(m) =>
      var acc' := acc + [m];
      var next: nat := m.index + 1;
      assert IntervalFrom(s, q, maxGap, start, acc) == IntervalFrom(s, q, maxGap, next, acc');
      SingleMatchHit(s, q, maxGap, start, m);
      HitsInOrderSnoc(s, q, maxGap, acc, m);
      assert acc'[|acc'| - 1] == m;
      IntervalFromSpec(s, q, maxGap, next, acc');
  }

  /** One pass of the scan: a hit from `start` is collected and the scan
      resumes just after its first position, keeping the final result. */
  lemma IntervalFromStep(s: string, q: string, maxGap: int, start: nat, acc: seq<MatchInfo>, m: MatchInfo, all: seq<MatchInfo>)
    requires start < |s| && SingleMatch(s, q, maxGap, start) == Some(m)
    requires IntervalFrom(s, q, maxGap, start, acc) == all
    ensures m.positions != [] && m.positions[0] + 1 <= |s|
    ensures IntervalFrom(s, q, maxGap, m.positions[0] + 1, acc + [m]) == all
  {
  }

  /** No hit from `start` ends the scan. */
  lemma IntervalFromStop(s: string, q: string, maxGap: int, start: nat, acc: seq<MatchInfo>)
    requires start < |s| && SingleMatch(s, q, maxGap, start).None?
    ensures IntervalFrom(s, q, maxGap, start, acc) == acc
  {
  }

  /** Each collected hit is the single match found from where the scan
      resumed: 0 for the first, one past the previous hit's first position
      for the others. */
  ghost predicate Rescanned(s: string, q: string, maxGap: int, ms: seq<MatchInfo>)
  {
    forall k :: 0 <= k < |ms| ==> FoundFromResume(s, q, maxGap, ms, k)
  }

  /** Hit `k` is the single match found from 0, for the first, or from one
      past the previous hit's first position. */
  ghost predicate FoundFromResume(s: string, q: string, maxGap: int, ms: seq<MatchInfo>, k: nat)
    requires k < |ms|
  {
    var from := if k == 0 then 0 else ms[k - 1].index + 1;
    0 <= from <= |s| && SingleMatch(s, q, maxGap, from) == Some(ms[k])
  }

  /** Where the scan resumes after collecting `ms`. */
  function ResumeAt(ms: seq<MatchInfo>): int
  {
    if ms == [] then 0 else ms[|ms| - 1].index + 1
  }

  /** The scan collects exactly the chain of single matches, each found
      from where the previous one left off, and it ends either at the end
      of the text or at the first start from which nothing is found. */
  lemma {:induction false} IntervalFromRescanned(s: string, q: string, maxGap: int, start: nat, acc: seq<MatchInfo>)
    requires Rescanned(s, q, maxGap, acc) && start == ResumeAt(acc)
    ensures Rescanned(s, q, maxGap, IntervalFrom(s, q, maxGap, start, acc))
    ensures var e := ResumeAt(IntervalFrom(s, q, maxGap, start, acc));
      0 <= e < |s| ==> SingleMatch(s, q, maxGap, e).None?
    decreases |s| - start
  {
    if start >= |s| {
      return;
    }
    match SingleMatch(s, q, maxGap, start)
    case None =>
    case Some(m) =>
      var acc' := acc + [m];
      assert IntervalFrom(s, q, maxGap, start, acc) == IntervalFrom(s, q, maxGap, m.index + 1, acc');
      RescannedSnoc(s, q, maxGap, acc, m);
      IntervalFromRescanned(s, q, maxGap, m.index + 1, acc');
  }

  /** A match found from where the scan resumes extends the chain. */
  lemma RescannedSnoc(s: string, q: string, maxGap: int, acc: seq<MatchInfo>, m: MatchInfo)
    requires Rescanned(s, q, maxGap, acc)
    requires 0 <= ResumeAt(acc) <= |s| && SingleMatch(s, q, maxGap, ResumeAt(acc)) == Some(m)
    ensures Rescanned(s, q, maxGap, acc + [m]) && ResumeAt(acc + [m]) == m.index + 1
  {
    var acc' := acc + [m];
    forall k | 0 <= k < |acc'|
      ensures FoundFromResume(s, q, maxGap, acc', k)
    {
      if k < |acc| {
        assert FoundFromResume(s, q, maxGap, acc, k);
        assert acc'[k] == acc[k];
        if k > 0 { assert acc'[k - 1] == acc[k - 1]; }
      } else {
        assert acc'[k] == m;
        var from := if k == 0 then 0 else acc'[k - 1].index + 1;
        if k > 0 {
          assert acc'[k - 1] == acc[|acc| - 1];
        }
        assert from == ResumeAt(acc);
      }
    }
    assert acc'[|acc'| - 1] == m;
  }

  /** `findIntervalMatches`. */
  function IntervalMatches(content: string, query: string, maxGap: int): seq<MatchInfo>
  {
    if Lower(query) == [] then []
    else IntervalFrom(Lower(content), Lower(query), maxGap, 0, [])
  }

  method FindIntervalMatches(content: string, query: string, maxGap: int) returns (matches: seq<MatchInfo>)
    ensures matches == IntervalMatches(content, query, maxGap)
  {
    var lowerContent := Lower(content);
    var lowerQuery := Lower(query);
    matches := [];
    if |lowerQuery| == 0 {
      return;
    }
    ghost var all := IntervalFrom(lowerContent, lowerQuery, maxGap, 0, []);
    var searchStart := 0;
    while searchStart < |content|
      invariant searchStart <= |content| == |lowerContent|
      invariant IntervalFrom(lowerContent, lowerQuery, maxGap, searchStart, matches) == all
      decreases |content| - searchStart
    {
      var m := FindSingleIntervalMatch(lowerContent, lowerQuery, maxGap, searchStart);
      if m.None? {
        IntervalFromStop(lowerContent, lowerQuery, maxGap, searchStart, matches);
        break;
      }
      var hit := m.value;
      IntervalFromStep(lowerContent, lowerQuery, maxGap, searchStart, matches, hit, all);
      var next := hit.positions[0] + 1;
      matches := matches + [hit];
      searchStart := next;
    }
  }

  /** What an interval hit means for the original text and query: the
      query's characters, up to case, at ascending positions of the content,
      at most `maxGap` characters between consecutive ones, and the span
      running from the first position to the last. */
  ghost predicate InOrderUpToCase(content: string, query: string, maxGap: int, m: MatchInfo)
  {
    && |m.positions| == |query|
    && (forall i :: 0 <= i < |query| ==>
          0 <= m.positions[i] < |content| && LowerChar(content[m.positions[i]]) == LowerChar(query[i]))
    && (forall i :: 0 < i < |query| ==>
          m.positions[i - 1] < m.positions[i] && m.positions[i] - m.positions[i - 1] - 1 <= maxGap)
    && WellFormed(m, |content|)
  }

  lemma HitInOrderUpToCase(content: string, query: string, maxGap: int, m: MatchInfo)
    requires IntervalHit(Lower(content), Lower(query), maxGap, m)
    ensures InOrderUpToCase(content, query, maxGap, m)
  {
    var ps := m.positions;
    forall j | 0 <= j < |ps|
      ensures m.index <= ps[j] < m.index + m.length
    {
      if j > 0 { assert ps[0] < ps[j]; }
      if j < |ps| - 1 { assert ps[j] < ps[|ps| - 1]; }
    }
  }

  /** What interval search promises: every hit places the query's
      characters in order within the gap limit, and hits are reported in
      increasing order of their first position. Each hit is the greedy
      match (every character at its first occurrence, by `SingleMatchSpec`)
      found from 0 or from one past the previous hit's first position, and
      the scan stops at the first start, short of the end of the text,
      from which nothing is found. An empty query finds nothing. */
  lemma IntervalMatchesSpec(content: string, query: string, maxGap: int)
    ensures forall k :: 0 <= k < |IntervalMatches(content, query, maxGap)| ==>
              InOrderUpToCase(content, query, maxGap, IntervalMatches(content, query, maxGap)[k])
    ensures forall k :: 0 < k < |IntervalMatches(content, query, maxGap)| ==>
              IntervalMatches(content, query, maxGap)[k - 1].index < IntervalMatches(content, query, maxGap)[k].index
    ensures query != [] ==> Rescanned(Lower(content), Lower(query), maxGap, IntervalMatches(content, query, maxGap))
    ensures var e := ResumeAt(IntervalMatches(content, query, maxGap));
      query != [] && 0 <= e < |content| ==> SingleMatch(Lower(content), Lower(query), maxGap, e).None?
    ensures query == [] ==> IntervalMatches(content, query, maxGap) == []
  {
    var ms := IntervalMatches(content, query, maxGap);
    if Lower(query) != [] {
      IntervalFromRescanned(Lower(content), Lower(query), maxGap, 0, []);
      IntervalFromSpec(Lower(content), Lower(query), maxGap, 0, []);
      forall k | 0 <= k < |ms|
        ensures InOrderUpToCase(content, query, maxGap, ms[k])
      {
        HitInOrderUpToCase(content, query, maxGap, ms[k]);
      }
    }
  }

  // =====================================================================
  // Either mode

  /** A match whose positions all lie within its span, and whose span lies
      within text of length `len`. */
  predicate WellFormed(m: MatchInfo, len: nat)
  {
    && 0 <= m.index && 0 <= m.length && m.index + m.length <= len
    && forall k :: 0 <= k < |m.positions| ==> m.index <= m.positions[k] < m.index + m.length
  }

  /** `findMatches`. */
  function Matches(content: string, query: string, options: SearchOptions): seq<MatchInfo>
    requires options.isExact ==> query != [] || content == []
  {
    if options.isExact then ExactMatches(content, query)
    else IntervalMatches(content, query, options.maxGap)
  }

  method FindMatches(content: string, query: string, options: SearchOptions) returns (matches: seq<MatchInfo>)
    requires options.isExact ==> query != [] || content == []
    ensures matches == Matches(content, query, options)
  {
    if options.isExact {
      matches := FindExactMatches(content, query);
    } else {
      matches := FindIntervalMatches(content, query, options.maxGap);
    }
  }

  lemma MatchesWellFormed(content: string, query: string, options: SearchOptions)
    requires query != []
    ensures forall m :: m in Matches(content, query, options) ==> WellFormed(m, |content|)
  {
    if options.isExact {
      ExactMatchesSpec(content, query);
    } else {
      IntervalMatchesSpec(content, query, options.maxGap);
    }
  }

  // =====================================================================
  // Highlighting

  /** One character of highlighted HTML: escaped, and wrapped in a marker
      when it is highlighted. */
  function Piece(c: char, marked: bool): string
  {
    if marked then Marked(EscapeChar(c)) else EscapeChar(c)
  }

  /** The text with character `i` highlighted exactly when `marks[i]`. */
  function Highlight(t: string, marks: seq<bool>): string
    requires |marks| == |t|
  {
    if t == [] then [] else Piece(t[0], marks[0]) + Highlight(t[1..], marks[1..])
  }

  lemma {:induction false} HighlightAppend(a: string, ma: seq<bool>, b: string, mb: seq<bool>)
    requires |ma| == |a| && |mb| == |b|
    ensures Highlight(a + b, ma + mb) == Highlight(a, ma) + Highlight(b, mb)
  {
    if a == [] {
      assert a + b == b && ma + mb == mb;
    } else {
      assert (a + b)[1..] == a[1..] + b && (ma + mb)[1..] == ma[1..] + mb;
      HighlightAppend(a[1..], ma[1..], b, mb);
    }
  }

  /** Character `i` is rendered as its own piece, marked exactly when
      `marks[i]` holds. */
  lemma {:induction false} HighlightAt(t: string, marks: seq<bool>, i: nat)
    requires |marks| == |t| && i < |t|
    ensures Highlight(t, marks)
            == Highlight(t[..i], marks[..i]) + Piece(t[i], marks[i]) + Highlight(t[i + 1..], marks[i + 1..])
  {
    var first := Piece(t[0], marks[0]);
    if i == 0 {
      assert t[..0] == [] && marks[..0] == [];
    } else {
      HighlightAt(t[1..], marks[1..], i - 1);
      assert t[1..][..i - 1] == t[..i][1..] && marks[1..][..i - 1] == marks[..i][1..];
      assert t[1..][i - 1] == t[i] && marks[1..][i - 1] == marks[i];
      assert t[1..][i..] == t[i + 1..] && marks[1..][i..] == marks[i + 1..];
      var mid := Highlight(t[..i][1..], marks[..i][1..]);
      var piece := Piece(t[i], marks[i]);
      var tail := Highlight(t[i + 1..], marks[i + 1..]);
      assert Highlight(t[..i], marks[..i]) == first + mid;
      assert Highlight(t, marks) == first + (mid + piece + tail);
      Assoc(first, mid + piece, tail);
      Assoc(first, mid, piece);
    }
  }

  lemma EscapeCharSafe(c: char)
    ensures '<' !in EscapeChar(c)
  {
    EscapeCharCases(c);
  }

  function CountTrue(marks: seq<bool>): nat
  {
    if marks == [] then 0 else (if marks[0] then 1 else 0) + CountTrue(marks[1..])
  }

  /** There are as many opening markers as closing ones, one pair per
      highlighted character. */
  lemma {:induction false} HighlightCounts(t: string, marks: seq<bool>)
    requires |marks| == |t|
    ensures CountOcc(Highlight(t, marks), MarkOpen) == CountTrue(marks)
    ensures CountOcc(Highlight(t, marks), MarkClose) == CountTrue(marks)
  {
    if t != [] {
      HighlightCounts(t[1..], marks[1..]);
      var e := EscapeChar(t[0]);
      EscapeCharSafe(t[0]);
      var rest := Highlight(t[1..], marks[1..]);
      if marks[0] {
        MarkedOpenCount(e, rest);
        MarkedCloseCount(e, rest);
      } else {
        PlainCounts(e, rest);
      }
    }
  }

  /** Taking the markers out leaves exactly the escaped text. */
  lemma {:induction false} HighlightStrip(t: string, marks: seq<bool>)
    requires |marks| == |t|
    ensures StripMarks(Highlight(t, marks)) == EscapeHtml(t)
  {
    if t != [] {
      HighlightStrip(t[1..], marks[1..]);
      var e := EscapeChar(t[0]);
      EscapeCharSafe(t[0]);
      var rest := Highlight(t[1..], marks[1..]);
      if marks[0] {
        StripMarked(e, rest);
      } else {
        StripPlain(e, rest);
      }
    }
  }

  /** The characters `highlightPositions` marks: those whose offset is
      listed. */
  function PositionMarks(n: nat, positions: seq<int>): (marks: seq<bool>)
    ensures |marks| == n
    ensures forall i :: 0 <= i < n ==> (marks[i] <==> i in positions)
  {
    seq(n, i => i in positions)
  }

  /** Extending the text by one character adds that character's piece. */
  lemma HighlightSnoc(t: string, marks: seq<bool>, i: nat)
    requires |marks| == |t| && i < |t|
    ensures Highlight(t[..i + 1], marks[..i + 1]) == Highlight(t[..i], marks[..i]) + Piece(t[i], marks[i])
  {
    assert Highlight([t[i]], [marks[i]]) == Piece(t[i], marks[i]);
    HighlightAppend(t[..i], marks[..i], [t[i]], [marks[i]]);
    assert t[..i + 1] == t[..i] + [t[i]] && marks[..i + 1] == marks[..i] + [marks[i]];
  }

  method HighlightPositions(text: string, positions: seq<int>) returns (result: string)
    ensures result == Highlight(text, PositionMarks(|text|, positions))
  {
    var posSet := set p | p in positions && 0 <= p < |text|;
    ghost var marks := PositionMarks(|text|, positions);
    result := "";
    for i := 0 to |text|
      invariant result == Highlight(text[..i], marks[..i])
    {
      var ch := text[i];
      var piece := if i in posSet then Marked(EscapeChar(ch)) else EscapeChar(ch);
      assert piece == Piece(text[i], marks[i]);
      HighlightSnoc(text, marks, i);
      result := result + piece;
    }
    assert text[..|text|] == text && marks[..|text|] == marks;
  }

  /** The characters interval highlighting marks: those whose lower-case
      form occurs in the lower-cased query. */
  function QueryCharMarks(text: string, query: string): (marks: seq<bool>)
    ensures |marks| == |text|
    ensures forall i :: 0 <= i < |text| ==> (marks[i] <==> LowerChar(text[i]) in Lower(query))
  {
    seq(|text|, i requires 0 <= i < |text| => LowerChar(text[i]) in Lower(query))
  }

  method HighlightIntervalText(text: string, query: string) returns (result: string)
    ensures result == Highlight(text, QueryCharMarks(text, query))
  {
    var lowerQuery := Lower(query);
    var queryChars := set c | c in lowerQuery;
    ghost var marks := QueryCharMarks(text, query);
    result := "";
    for i := 0 to |text|
      invariant result == Highlight(text[..i], marks[..i])
    {
      var ch := text[i];
      var piece := if LowerChar(ch) in queryChars then Marked(EscapeChar(ch)) else EscapeChar(ch);
      assert piece == Piece(text[i], marks[i]);
      HighlightSnoc(text, marks, i);
      result := result + piece;
    }
    assert text[..|text|] == text && marks[..|text|] == marks;
  }

  /** The escaped text between the previous occurrence and the next one. */
  function EscapedGap(t: string, last: nat, i: nat): string
    requires last <= i <= |t|
  {
    if i > last then EscapeHtml(t[last..i]) else []
  }

  /** An occurrence, escaped and marked. */
  function MarkedSpan(t: string, i: nat, n: nat): string
    requires i + n <= |t|
  {
    Marked(EscapeHtml(t[i..i + n]))
  }

  /** The HTML `highlightExactText` produces for the rest of `t` from
      `last`, where `lt` and `lq` are the lower-cased text and query: the
      escaped text up to the next occurrence, the occurrence escaped and
      marked, and so on; the tail escaped. */
  function ExactHighlightFrom(t: string, lt: string, lq: string, last: nat): string
    requires |lt| == |t| && lq != [] && last <= |t|
    decreases |t| - last
  {
    var i := IndexOf(lt, lq, last);
    if i == -1 then
      (if last < |t| then EscapeHtml(t[last..]) else [])
    else
      EscapedGap(t, last, i) + MarkedSpan(t, i, |lq|) + ExactHighlightFrom(t, lt, lq, i + |lq|)
  }

  /** The parts `highlightExactText` has pushed once its scan has gone
      through the text from `last`, having pushed `parts` before. */
  function ExactParts(t: string, lt: string, lq: string, last: nat, parts: seq<string>): seq<string>
    requires |lt| == |t| && lq != [] && last <= |t|
    decreases |t| - last
  {
    var i := IndexOf(lt, lq, last);
    if i == -1 then
      (if last < |t| then parts + [EscapeHtml(t[last..])] else parts)
    else
      ExactParts(t, lt, lq, i + |lq|, Pushed(t, last, i, |lq|, parts))
  }

  lemma Regroup(a: string, b: string, c: string, d: string)
    ensures ((a + b) + c) + d == a + ((b + c) + d)
  {
  }

  /** What one pass of the scan in `highlightExactText` pushes: the gap
      before the occurrence at `i`, escaped, unless it is empty, then the
      occurrence escaped and marked. */
  function Pushed(t: string, last: nat, i: nat, n: nat, parts: seq<string>): seq<string>
    requires last <= i && i + n <= |t|
  {
    parts + (if i > last then [EscapeHtml(t[last..i])] else []) + [MarkedSpan(t, i, n)]
  }

  /** The parts of one pass, joined, are the escaped gap and the marked
      occurrence. */
  lemma ConcatPushed(t: string, last: nat, i: nat, n: nat, parts: seq<string>)
    requires last <= i && i + n <= |t|
    ensures Concat(Pushed(t, last, i, n, parts)) == Concat(parts) + EscapedGap(t, last, i) + MarkedSpan(t, i, n)
  {
    var mid := parts + (if i > last then [EscapeHtml(t[last..i])] else []);
    if i > last {
      ConcatSnoc(parts, EscapeHtml(t[last..i]));
    } else {
      assert mid == parts;
      assert Concat(parts) + EscapedGap(t, last, i) == Concat(parts);
    }
    ConcatSnoc(mid, MarkedSpan(t, i, n));
  }

  /** The pushed parts, joined, are the highlighted text. */
  lemma {:induction false} ExactPartsConcat(t: string, lt: string, lq: string, last: nat, parts: seq<string>)
    requires |lt| == |t| && lq != [] && last <= |t|
    ensures Concat(ExactParts(t, lt, lq, last, parts)) == Concat(parts) + ExactHighlightFrom(t, lt, lq, last)
    decreases |t| - last
  {
    var i := IndexOf(lt, lq, last);
    if i == -1 {
      ExactPartsConcatEnd(t, lt, lq, last, parts);
    } else {
      assert last <= i && i + |lq| <= |t|;
      var next := Pushed(t, last, i, |lq|, parts);
      assert Concat(ExactParts(t, lt, lq, i + |lq|, next)) == Concat(next) + ExactHighlightFrom(t, lt, lq, i + |lq|) by {
        ExactPartsConcat(t, lt, lq, i + |lq|, next);
      }
      ExactPartsConcatStep(t, lt, lq, last, parts, i);
    }
  }

  /** The inductive step of `ExactPartsConcat`: what holds after the next
      occurrence carries back over the gap and that occurrence. */
  lemma ExactPartsConcatStep(t: string, lt: string, lq: string, last: nat, parts: seq<string>, i: int)
    requires |lt| == |t| && lq != [] && last <= |t| && i == IndexOf(lt, lq, last) && i != -1
    requires last <= i && i + |lq| <= |t|
    requires Concat(ExactParts(t, lt, lq, i + |lq|, Pushed(t, last, i, |lq|, parts)))
             == Concat(Pushed(t, last, i, |lq|, parts)) + ExactHighlightFrom(t, lt, lq, i + |lq|)
    ensures Concat(ExactParts(t, lt, lq, last, parts)) == Concat(parts) + ExactHighlightFrom(t, lt, lq, last)
  {
    var next := Pushed(t, last, i, |lq|, parts);
    var rest := ExactHighlightFrom(t, lt, lq, i + |lq|);
    assert ExactParts(t, lt, lq, last, parts) == ExactParts(t, lt, lq, i + |lq|, next) by {
      ExactPartsStep(t, lt, lq, last, i, parts, ExactParts(t, lt, lq, last, parts));
    }
    assert ExactHighlightFrom(t, lt, lq, last) == EscapedGap(t, last, i) + MarkedSpan(t, i, |lq|) + rest by {
      ExactHighlightStep(t, lt, lq, last, i);
    }
    PushedThenRest(t, last, i, |lq|, parts, rest);
  }

  /** The end of `ExactPartsConcat`: with no occurrence left, the escaped
      tail is the last part pushed. */
  lemma ExactPartsConcatEnd(t: string, lt: string, lq: string, last: nat, parts: seq<string>)
    requires |lt| == |t| && lq != [] && last <= |t| && IndexOf(lt, lq, last) == -1
    ensures Concat(ExactParts(t, lt, lq, last, parts)) == Concat(parts) + ExactHighlightFrom(t, lt, lq, last)
  {
    if last < |t| {
      ConcatSnoc(parts, EscapeHtml(t[last..]));
    } else {
      assert Concat(parts) + [] == Concat(parts);
    }
  }

  /** The parts of one pass, joined and followed by the rest of the
      highlighting, regroup as the earlier parts followed by the escaped
      gap, the marked occurrence and that rest. */
  lemma PushedThenRest(t: string, last: nat, i: nat, n: nat, parts: seq<string>, rest: string)
    requires last <= i && i + n <= |t|
    ensures Concat(Pushed(t, last, i, n, parts)) + rest
            == Concat(parts) + (EscapedGap(t, last, i) + MarkedSpan(t, i, n) + rest)
  {
    ConcatPushed(t, last, i, n, parts);
    Regroup(Concat(parts), EscapedGap(t, last, i), MarkedSpan(t, i, n), rest);
  }

  /** One pass of the scan keeps the parts still to be pushed unchanged. */
  lemma ExactPartsStep(t: string, lt: string, lq: string, last: nat, i: int, parts: seq<string>, all: seq<string>)
    requires |lt| == |t| && lq != [] && last <= |t| && i == IndexOf(lt, lq, last) && i != -1
    requires ExactParts(t, lt, lq, last, parts) == all
    ensures last <= i && i + |lq| <= |t|
    ensures ExactParts(t, lt, lq, i + |lq|, Pushed(t, last, i, |lq|, parts)) == all
  {
  }

  /** The scan of `highlightExactText`: the parts pushed up to the last
      occurrence of the lower-cased query in the lower-cased text. */
  method ScanExact(text: string, lowerText: string, lowerQuery: string) returns (parts: seq<string>, lastIndex: nat)
    requires |lowerText| == |text| && lowerQuery != []
    ensures lastIndex <= |text| && IndexOf(lowerText, lowerQuery, lastIndex) == -1
    ensures ExactParts(text, lowerText, lowerQuery, lastIndex, parts) == ExactParts(text, lowerText, lowerQuery, 0, [])
  {
    parts := [];
    lastIndex := 0;
    var index := IndexOf(lowerText, lowerQuery, 0);
    ghost var all := ExactParts(text, lowerText, lowerQuery, 0, []);
    while index != -1
      invariant lastIndex <= |text|
      invariant index == IndexOf(lowerText, lowerQuery, lastIndex)
      invariant ExactParts(text, lowerText, lowerQuery, lastIndex, parts) == all
      decreases |text| - lastIndex
    {
      ExactPartsStep(text, lowerText, lowerQuery, lastIndex, index, parts, all);
      ghost var next := Pushed(text, lastIndex, index, |lowerQuery|, parts);
      if index > lastIndex {
        parts := parts + [EscapeHtml(text[lastIndex..index])];
      }
      parts := parts + [MarkedSpan(text, index, |lowerQuery|)];
      assert parts == next;
      lastIndex := index + |lowerQuery|;
      index := IndexOf(lowerText, lowerQuery, lastIndex);
    }
  }

  /** `highlightExactText`: every occurrence of the query, whatever its
      case, marked, and everything else escaped. */
  method HighlightExactText(text: string, query: string) returns (result: string)
    requires query != []
    ensures result == ExactHighlightFrom(text, Lower(text), Lower(query), 0)
  {
    var lowerText := Lower(text);
    var lowerQuery := Lower(query);
    var parts, lastIndex := ScanExact(text, lowerText, lowerQuery);
    if lastIndex < |text| {
      parts := parts + [EscapeHtml(text[lastIndex..])];
    }
    assert parts == ExactParts(text, lowerText, lowerQuery, 0, []);
    result := Join(parts, "");
    ConcatJoin(parts);
    ExactPartsConcat(text, lowerText, lowerQuery, 0, []);
  }

  /** One step of exact highlighting: the gap before the next occurrence,
      the occurrence marked, then the rest. */
  lemma ExactHighlightStep(t: string, lt: string, lq: string, last: nat, i: int)
    requires |lt| == |t| && lq != [] && last <= |t| && i == IndexOf(lt, lq, last) && i != -1
    ensures last <= i && i + |lq| <= |t|
    ensures ExactHighlightFrom(t, lt, lq, last)
            == EscapedGap(t, last, i) + MarkedSpan(t, i, |lq|) + ExactHighlightFrom(t, lt, lq, i + |lq|)
  {
  }

  /** Escaping a suffix, cut at an occurrence. */
  lemma EscapeSplit(t: string, last: nat, i: nat, n: nat)
    requires last <= i && i + n <= |t|
    ensures EscapeHtml(t[last..]) == EscapedGap(t, last, i) + EscapeHtml(t[i..i + n]) + EscapeHtml(t[i + n..])
  {
    assert t[last..] == t[last..i] + t[i..i + n] + t[i + n..];
    EscapeAppend(t[last..i], t[i..i + n]);
    EscapeAppend(t[last..i] + t[i..i + n], t[i + n..]);
    if i == last {
      assert t[last..i] == [];
    }
  }

  lemma StripChunk(gap: string, e: string, rest: string)
    requires '<' !in gap && '<' !in e
    ensures StripMarks(gap + Marked(e) + rest) == gap + e + StripMarks(rest)
  {
    assert gap + Marked(e) + rest == gap + (Marked(e) + rest);
    StripPlain(gap, Marked(e) + rest);
    StripMarked(e, rest);
  }

  lemma ChunkCounts(gap: string, e: string, rest: string)
    requires '<' !in gap && '<' !in e
    ensures CountOcc(gap + Marked(e) + rest, MarkOpen) == 1 + CountOcc(rest, MarkOpen)
    ensures CountOcc(gap + Marked(e) + rest, MarkClose) == 1 + CountOcc(rest, MarkClose)
  {
    assert gap + Marked(e) + rest == gap + (Marked(e) + rest);
    PlainCounts(gap, Marked(e) + rest);
    MarkedOpenCount(e, rest);
    MarkedCloseCount(e, rest);
  }

  /** Exact highlighting marks exactly the spans exact search reports:
      one opening and one closing marker per reported match. */
  lemma {:induction false} ExactHighlightCounts(t: string, lt: string, lq: string, last: nat)
    requires |lt| == |t| && lq != [] && last <= |t|
    ensures CountOcc(ExactHighlightFrom(t, lt, lq, last), MarkOpen) == |ExactStarts(lt, lq, last)|
    ensures CountOcc(ExactHighlightFrom(t, lt, lq, last), MarkClose) == |ExactStarts(lt, lq, last)|
    decreases |t| - last
  {
    var i := IndexOf(lt, lq, last);
    if i == -1 {
      assert |ExactStarts(lt, lq, last)| == 0;
      CountsNoOccurrence(t, lt, lq, last);
    } else {
      CountsStep(t, lt, lq, last, i);
      ExactHighlightCounts(t, lt, lq, i + |lq|);
    }
  }

  /** The inductive step of `ExactHighlightCounts`: one more occurrence is
      one more start and one more marker of each kind. */
  lemma CountsStep(t: string, lt: string, lq: string, last: nat, i: int)
    requires |lt| == |t| && lq != [] && last <= |t| && i == IndexOf(lt, lq, last) && i != -1
    ensures last <= i && i + |lq| <= |t|
    ensures |ExactStarts(lt, lq, last)| == 1 + |ExactStarts(lt, lq, i + |lq|)|
    ensures CountOcc(ExactHighlightFrom(t, lt, lq, last), MarkOpen)
            == 1 + CountOcc(ExactHighlightFrom(t, lt, lq, i + |lq|), MarkOpen)
    ensures CountOcc(ExactHighlightFrom(t, lt, lq, last), MarkClose)
            == 1 + CountOcc(ExactHighlightFrom(t, lt, lq, i + |lq|), MarkClose)
  {
    ExactStartsStep(lt, lq, last, i);
    var h := ExactHighlightFrom(t, lt, lq, last);
    var rest := ExactHighlightFrom(t, lt, lq, i + |lq|);
    assert h == EscapedGap(t, last, i) + MarkedSpan(t, i, |lq|) + rest by {
      ExactHighlightStep(t, lt, lq, last, i);
    }
    CountsOccurrence(t, last, i, |lq|, rest, h);
  }

  /** One more occurrence is one more reported start. */
  lemma ExactStartsStep(lt: string, lq: string, last: nat, i: int)
    requires lq != [] && last <= |lt| && i == IndexOf(lt, lq, last) && i != -1
    ensures last <= i && i + |lq| <= |lt|
    ensures |ExactStarts(lt, lq, last)| == 1 + |ExactStarts(lt, lq, i + |lq|)|
  {
  }

  /** The end of `ExactHighlightCounts`: no occurrence is left, so no
      marker either. */
  lemma CountsNoOccurrence(t: string, lt: string, lq: string, last: nat)
    requires |lt| == |t| && lq != [] && last <= |t| && IndexOf(lt, lq, last) == -1
    ensures CountOcc(ExactHighlightFrom(t, lt, lq, last), MarkOpen) == 0
    ensures CountOcc(ExactHighlightFrom(t, lt, lq, last), MarkClose) == 0
  {
    var h := ExactHighlightFrom(t, lt, lq, last);
    if last < |t| {
      assert h == EscapeHtml(t[last..]) + [];
      EscapeHtmlSafe(t[last..]);
      PlainCounts(EscapeHtml(t[last..]), []);
    } else {
      assert h == [];
    }
  }

  /** One step of `ExactHighlightCounts`: the gap and the marked occurrence
      add one marker of each kind. */
  lemma CountsOccurrence(t: string, last: nat, i: nat, n: nat, rest: string, h: string)
    requires last <= i && i + n <= |t|
    requires h == EscapedGap(t, last, i) + MarkedSpan(t, i, n) + rest
    ensures CountOcc(h, MarkOpen) == 1 + CountOcc(rest, MarkOpen)
    ensures CountOcc(h, MarkClose) == 1 + CountOcc(rest, MarkClose)
  {
    var gap := EscapedGap(t, last, i);
    var e := EscapeHtml(t[i..i + n]);
    assert MarkedSpan(t, i, n) == Marked(e);
    EscapeHtmlSafe(t[last..i]);
    EscapeHtmlSafe(t[i..i + n]);
    ChunkCounts(gap, e, rest);
  }

  /** Taking the markers out of exact highlighting leaves the escaped text. */
  lemma {:induction false} ExactHighlightStrip(t: string, lt: string, lq: string, last: nat)
    requires |lt| == |t| && lq != [] && last <= |t|
    ensures StripMarks(ExactHighlightFrom(t, lt, lq, last)) == EscapeHtml(t[last..])
    decreases |t| - last
  {
    var i := IndexOf(lt, lq, last);
    if i == -1 {
      StripNoOccurrence(t, lt, lq, last);
    } else {
      ExactHighlightStep(t, lt, lq, last, i);
      ExactHighlightStrip(t, lt, lq, i + |lq|);
      StripOccurrence(t, last, i, |lq|, ExactHighlightFrom(t, lt, lq, i + |lq|), ExactHighlightFrom(t, lt, lq, last));
    }
  }

  /** The end of `ExactHighlightStrip`: no occurrence is left. */
  lemma StripNoOccurrence(t: string, lt: string, lq: string, last: nat)
    requires |lt| == |t| && lq != [] && last <= |t| && IndexOf(lt, lq, last) == -1
    ensures StripMarks(ExactHighlightFrom(t, lt, lq, last)) == EscapeHtml(t[last..])
  {
    if last < |t| {
      var e := EscapeHtml(t[last..]);
      assert ExactHighlightFrom(t, lt, lq, last) == e;
      EscapeHtmlSafe(t[last..]);
      StripPlain(e, []);
      assert e + [] == e;
    } else {
      assert t[last..] == [];
    }
  }

  /** One step of `ExactHighlightStrip`: an occurrence and the gap before
      it, followed by a rest that strips to its escaped text. */
  lemma StripOccurrence(t: string, last: nat, i: nat, n: nat, rest: string, h: string)
    requires last <= i && i + n <= |t|
    requires StripMarks(rest) == EscapeHtml(t[i + n..])
    requires h == EscapedGap(t, last, i) + MarkedSpan(t, i, n) + rest
    ensures StripMarks(h) == EscapeHtml(t[last..])
  {
    var gap := EscapedGap(t, last, i);
    var e := EscapeHtml(t[i..i + n]);
    assert MarkedSpan(t, i, n) == Marked(e);
    EscapeHtmlSafe(t[last..i]);
    EscapeHtmlSafe(t[i..i + n]);
    StripChunk(gap, e, rest);
    EscapeSplit(t, last, i, n);
  }

  /** `highlightText`: the escaped text for a blank query, otherwise the
      highlighting of the selected mode. */
  function HighlightTextSpec(text: string, query: string, isExact: bool): string
  {
    if IsBlank(query) then EscapeHtml(text)
    else if isExact then ExactHighlightFrom(text, Lower(text), Lower(query), 0)
    else Highlight(text, QueryCharMarks(text, query))
  }

  method HighlightText(text: string, query: string, isExact: bool) returns (result: string)
    ensures result == HighlightTextSpec(text, query, isExact)
  {
    if IsBlank(query) {
      return EscapeHtml(text);
    }
    if isExact {
      result := HighlightExactText(text, query);
    } else {
      result := HighlightIntervalText(text, query);
    }
  }

  /** Highlighting never changes the text: with the markers taken out and
      the entities decoded, the original text comes back. */
  lemma HighlightTextPreserves(text: string, query: string, isExact: bool)
    ensures Unescape(StripMarks(HighlightTextSpec(text, query, isExact))) == text
  {
    if IsBlank(query) {
      EscapeHtmlSafe(text);
      StripPlain(EscapeHtml(text), []);
      assert EscapeHtml(text) + [] == EscapeHtml(text);
    } else if isExact {
      ExactHighlightStrip(text, Lower(text), Lower(query), 0);
      assert text[0..] == text;
    } else {
      HighlightStrip(text, QueryCharMarks(text, query));
    }
    UnescapeEscape(text);
  }

  /** The marker counts the highlight property checks: in exact mode one
      pair per occurrence found by a left-to-right non-overlapping scan; in
      interval mode one pair per character whose lower-case form is in the
      query. */
  lemma HighlightTextCounts(text: string, query: string, isExact: bool)
    requires !IsBlank(query)
    ensures CountOcc(HighlightTextSpec(text, query, isExact), MarkOpen)
            == CountOcc(HighlightTextSpec(text, query, isExact), MarkClose)
    ensures isExact ==> CountOcc(HighlightTextSpec(text, query, isExact), MarkOpen)
                        == |ExactMatches(text, query)|
    ensures !isExact ==> CountOcc(HighlightTextSpec(text, query, isExact), MarkOpen)
                         == CountTrue(QueryCharMarks(text, query))
  {
    if isExact {
      ExactHighlightCounts(text, Lower(text), Lower(query), 0);
    } else {
      HighlightCounts(text, QueryCharMarks(text, query));
    }
  }

  // =====================================================================
  // Snippets

  /** One line of snippet HTML; an empty line shows a line break. */
  function LineDiv(line: string): string
  {
    "<div class=\"docx-p\">" + (if line == [] then "<br>" else line) + "</div>"
  }

  function LinesHtml(lines: seq<string>): string
  {
    Join(seq(|lines|, i requires 0 <= i < |lines| => LineDiv(lines[i])), "")
  }

  /** `textToHtml`. */
  function TextToHtml(text: string): (h: string)
    ensures h == [] <==> text == []
  {
    if text == [] then [] else LinesHtml(Split(text, '\n'))
  }

  /** Non-empty text becomes one block per line: the lines hold no line
      break, joining them with line breaks gives the text back, and there
      is one more line than there are line breaks. */
  lemma TextToHtmlLines(text: string)
    requires text != []
    ensures exists lines: seq<string> ::
              && TextToHtml(text) == LinesHtml(lines)
              && Join(lines, "\n") == text
              && |lines| == CountChar(text, '\n') + 1
              && (forall i :: 0 <= i < |lines| ==> '\n' !in lines[i])
  {
    var lines := Split(text, '\n');
    JoinSplit(text, '\n');
    SplitCount(text, '\n');
    assert TextToHtml(text) == LinesHtml(lines);
  }

  function Max(a: int, b: int): int { if a >= b then a else b }
  function Min(a: int, b: int): int { if a <= b then a else b }

  function SnippetStart(m: MatchInfo, range: int): int
  {
    Max(0, m.index - range)
  }

  function SnippetEnd(len: nat, m: MatchInfo, range: int): int
  {
    Min(len, m.index + m.length + range)
  }

  /** The preview text around a match, with an ellipsis on each side where
      text was cut off. */
  function SnippetText(content: string, m: MatchInfo, range: int): string
  {
    var start := SnippetStart(m, range);
    var end := SnippetEnd(|content|, m, range);
    (if start > 0 then "..." else "")
    + Slice(content, start, end)
    + (if end < |content| then "..." else "")
  }

  /** The match positions moved into the snippet's coordinates. */
  function SnippetPositions(content: string, m: MatchInfo, range: int): seq<int>
  {
    var start := SnippetStart(m, range);
    var offset := if start > 0 then 3 else 0;
    seq(|m.positions|, k requires 0 <= k < |m.positions| => m.positions[k] - start + offset)
  }

  /** `generateSnippet`. */
  function SnippetHtml(content: string, m: MatchInfo, range: int): string
  {
    var snippet := SnippetText(content, m, range);
    TextToHtml(Highlight(snippet, PositionMarks(|snippet|, SnippetPositions(content, m, range))))
  }

  method GenerateSnippet(content: string, m: MatchInfo, range: int) returns (html: string)
    ensures html == SnippetHtml(content, m, range)
  {
    var start := Max(0, m.index - range);
    var end := Min(|content|, m.index + m.length + range);
    var snippet := Slice(content, start, end);
    if start > 0 {
      snippet := "..." + snippet;
    }
    if end < |content| {
      snippet := snippet + "...";
    }
    var offset := if start > 0 then 3 else 0;
    var adjusted := seq(|m.positions|, k requires 0 <= k < |m.positions| => m.positions[k] - start + offset);
    assert snippet == SnippetText(content, m, range);
    assert adjusted == SnippetPositions(content, m, range);
    var highlighted := HighlightPositions(snippet, adjusted);
    html := TextToHtml(highlighted);
  }

  /** Position `ps[k]` of `snippet` holds the character at `positions[k]`
      of `content`, for every `k`. */
  ghost predicate SamePlaces(snippet: string, ps: seq<int>, content: string, positions: seq<int>)
  {
    && |ps| == |positions|
    && forall k :: 0 <= k < |ps| ==>
         0 <= ps[k] < |snippet| && 0 <= positions[k] < |content| && snippet[ps[k]] == content[positions[k]]
  }

  /** For a well-formed match and a non-negative preview range, every match
      position lands, in the snippet, on the very character it marks in the
      content. */
  lemma SnippetMarksMatchedChars(content: string, m: MatchInfo, range: int)
    requires WellFormed(m, |content|) && range >= 0
    ensures SamePlaces(SnippetText(content, m, range), SnippetPositions(content, m, range), content, m.positions)
  {
    var start := SnippetStart(m, range);
    var end := SnippetEnd(|content|, m, range);
    var pre: string := if start > 0 then "..." else "";
    var body := Slice(content, start, end);
    var post: string := if end < |content| then "..." else "";
    assert 0 <= start <= m.index && m.index + m.length <= end <= |content|;
    assert body == content[start..end];
    var snippet := SnippetText(content, m, range);
    assert snippet == pre + body + post;
    var ps := SnippetPositions(content, m, range);
    forall k | 0 <= k < |ps|
      ensures 0 <= ps[k] < |snippet| && 0 <= m.positions[k] < |content| && snippet[ps[k]] == content[m.positions[k]]
    {
      var p := m.positions[k];
      assert ps[k] == |pre| + (p - start);
      assert snippet[ps[k]] == body[p - start];
    }
  }

  // =====================================================================
  // Ordering and the whole search

  predicate SortedByLength(rs: seq<SearchResult>)
  {
    forall i, j :: 0 <= i < j < |rs| ==> rs[i].matchLength <= rs[j].matchLength
  }

  /** Puts `x` before the first result that is not shorter. */
  function Insert(x: SearchResult, rs: seq<SearchResult>): seq<SearchResult>
  {
    if rs == [] then [x]
    else if x.matchLength <= rs[0].matchLength then [x] + rs
    else [rs[0]] + Insert(x, rs[1..])
  }

  /** `sortResults`: `Array.prototype.sort` with the comparator
      `a.matchLength - b.matchLength`, a stable sort by match span. */
  function SortResults(rs: seq<SearchResult>): (r: seq<SearchResult>)
    ensures multiset(r) == multiset(rs)
  {
    if rs == [] then []
    else
      InsertPerm(rs[0], SortResults(rs[1..]));
      assert rs == [rs[0]] + rs[1..];
      Insert(rs[0], SortResults(rs[1..]))
  }

  /** The results whose span is `len`, in order. */
  function WithLength(rs: seq<SearchResult>, len: int): (r: seq<SearchResult>)
    ensures |r| <= |rs|
  {
    if rs == [] then []
    else (if rs[0].matchLength == len then [rs[0]] else []) + WithLength(rs[1..], len)
  }

  lemma {:induction false} InsertSorted(x: SearchResult, rs: seq<SearchResult>)
    requires SortedByLength(rs)
    ensures SortedByLength(Insert(x, rs))
    ensures Insert(x, rs) != []
    ensures Insert(x, rs)[0].matchLength == if rs == [] then x.matchLength else Min(x.matchLength, rs[0].matchLength)
  {
    if rs != [] && x.matchLength > rs[0].matchLength {
      var tail := Insert(x, rs[1..]);
      assert SortedByLength(rs[1..]) by {
        forall i, j | 0 <= i < j < |rs[1..]|
          ensures rs[1..][i].matchLength <= rs[1..][j].matchLength
        {
          assert rs[1..][i] == rs[i + 1] && rs[1..][j] == rs[j + 1];
        }
      }
      InsertSorted(x, rs[1..]);
      assert tail[0].matchLength >= rs[0].matchLength by {
        if |rs| > 1 {
          assert rs[1..][0] == rs[1];
        }
      }
      forall i, j | 0 <= i < j < |[rs[0]] + tail|
        ensures ([rs[0]] + tail)[i].matchLength <= ([rs[0]] + tail)[j].matchLength
      {
        if i == 0 {
          assert ([rs[0]] + tail)[j] == tail[j - 1];
          assert tail[0].matchLength <= tail[j - 1].matchLength;
        }
      }
    }
  }
  lemma {:induction false} InsertPerm(x: SearchResult, rs: seq<SearchResult>)
    ensures multiset(Insert(x, rs)) == multiset(rs) + multiset{x}
  {
    if rs != [] && x.matchLength > rs[0].matchLength {
      InsertPerm(x, rs[1..]);
      assert rs == [rs[0]] + rs[1..];
    }
  }

  lemma WithLengthCons(y: SearchResult, ys: seq<SearchResult>, len: int)
    ensures WithLength([y] + ys, len) == (if y.matchLength == len then [y] else []) + WithLength(ys, len)
  {
    assert ([y] + ys)[0] == y;
    assert ([y] + ys)[1..] == ys;
  }

  /** Inserting keeps the order among results of each span: `x` lands
      before every result of its own span. */
  lemma {:induction false} InsertStable(x: SearchResult, rs: seq<SearchResult>, len: int)
    ensures WithLength(Insert(x, rs), len)
            == (if x.matchLength == len then [x] else []) + WithLength(rs, len)
  {
    var ex := if x.matchLength == len then [x] else [];
    if rs == [] {
      WithLengthCons(x, [], len);
      assert [x] + [] == [x];
    } else if x.matchLength <= rs[0].matchLength {
      WithLengthCons(x, rs, len);
    } else {
      var e0 := if rs[0].matchLength == len then [rs[0]] else [];
      var tail := Insert(x, rs[1..]);
      InsertStable(x, rs[1..], len);
      WithLengthCons(rs[0], tail, len);
      WithLengthCons(rs[0], rs[1..], len);
      assert rs == [rs[0]] + rs[1..];
      var w := WithLength(rs[1..], len);
      assert e0 + (ex + w) == ex + (e0 + w) by {
        if rs[0].matchLength == len {
          assert ex == [];
          assert ex + w == w;
        } else {
          assert e0 == [];
          assert e0 + (ex + w) == ex + w;
        }
      }
      calc {
        WithLength(Insert(x, rs), len);
        WithLength([rs[0]] + tail, len);
        e0 + WithLength(tail, len);
        e0 + (ex + w);
        ex + (e0 + w);
        ex + WithLength(rs, len);
      }
    }
  }

  /** `sortResults` orders by span, keeps every result, and keeps results
      of equal span in their original order. */
  lemma {:induction false} SortResultsSpec(rs: seq<SearchResult>)
    ensures SortedByLength(SortResults(rs))
    ensures multiset(SortResults(rs)) == multiset(rs)
    ensures forall len :: WithLength(SortResults(rs), len) == WithLength(rs, len)
  {
    if rs != [] {
      SortResultsSpec(rs[1..]);
      InsertSorted(rs[0], SortResults(rs[1..]));
      InsertPerm(rs[0], SortResults(rs[1..]));
      assert rs == [rs[0]] + rs[1..];
      forall len
        ensures WithLength(SortResults(rs), len) == WithLength(rs, len)
      {
        InsertStable(rs[0], SortResults(rs[1..]), len);
      }
    }
  }

  /** The result `search` pushes for match `m` of document `d`. */
  function ResultFor(d: Document, m: MatchInfo, range: int): SearchResult
    requires d.id.Some?
  {
    SearchResult(d.id.value, d.fileName, d.content, m.index, m.length, SnippetHtml(d.content, m, range))
  }

  /** The results for one document's matches, in match order. */
  function DocResults(d: Document, ms: seq<MatchInfo>, range: int): seq<SearchResult>
    requires d.id.Some?
  {
    seq(|ms|, k requires 0 <= k < |ms| => ResultFor(d, ms[k], range))
  }

  /** A document takes part when it has an id; the id 0 counts as missing. */
  predicate HasId(d: Document)
  {
    d.id.Some? && d.id.value != 0
  }

  /** The results of `search` before sorting, document by document. */
  function Collect(docs: seq<Document>, query: string, options: SearchOptions): seq<SearchResult>
    requires query != []
    decreases |docs|
  {
    if docs == [] then []
    else
      var d := docs[|docs| - 1];
      Collect(docs[..|docs| - 1], query, options)
      + (if HasId(d) then DocResults(d, Matches(d.content, query, options), options.previewRange) else [])
  }

  /** `search`. */
  function SearchSpec(query: string, docs: seq<Document>, options: SearchOptions): seq<SearchResult>
  {
    if IsBlank(query) then []
    else SortResults(Collect(docs, query, options))
  }

  lemma DocResultsSnoc(d: Document, ms: seq<MatchInfo>, j: nat, range: int)
    requires d.id.Some? && j < |ms|
    ensures DocResults(d, ms[..j + 1], range) == DocResults(d, ms[..j], range) + [ResultFor(d, ms[j], range)]
  {
    var longer := DocResults(d, ms[..j + 1], range);
    var shorter := DocResults(d, ms[..j], range) + [ResultFor(d, ms[j], range)];
    assert |longer| == j + 1 == |shorter|;
    forall k | 0 <= k <= j
      ensures longer[k] == shorter[k]
    {
      assert ms[..j + 1][k] == ms[k];
      if k < j {
        assert ms[..j][k] == ms[k];
      }
    }
  }

  lemma CollectSnoc(docs: seq<Document>, i: nat, query: string, options: SearchOptions)
    requires query != [] && i < |docs|
    ensures Collect(docs[..i + 1], query, options)
            == Collect(docs[..i], query, options)
               + (if HasId(docs[i]) then DocResults(docs[i], Matches(docs[i].content, query, options), options.previewRange) else [])
  {
    assert docs[..i + 1][..i] == docs[..i];
  }

  /** The inner loop of `search`: one result per match of a document,
      each with its snippet. */
  method ResultsOf(d: Document, matches: seq<MatchInfo>, range: int) returns (found: seq<SearchResult>)
    requires d.id.Some?
    ensures found == DocResults(d, matches, range)
  {
    found := [];
    for j := 0 to |matches|
      invariant found == DocResults(d, matches[..j], range)
    {
      var m := matches[j];
      var snippet := GenerateSnippet(d.content, m, range);
      DocResultsSnoc(d, matches, j, range);
      found := found + [SearchResult(d.id.value, d.fileName, d.content, m.index, m.length, snippet)];
    }
    assert matches[..|matches|] == matches;
  }

  method Search(query: string, docs: seq<Document>, options: SearchOptions) returns (results: seq<SearchResult>)
    ensures results == SearchSpec(query, docs, options)
  {
    if IsBlank(query) {
      return [];
    }
    assert IsBlank([]);
    assert query != [];
    var all: seq<SearchResult> := [];
    for i := 0 to |docs|
      invariant all == Collect(docs[..i], query, options)
    {
      var d := docs[i];
      CollectSnoc(docs, i, query, options);
      if !HasId(d) {
        continue;
      }
      var matches := FindMatches(d.content, query, options);
      var found := ResultsOf(d, matches, options.previewRange);
      all := all + found;
    }
    assert docs[..|docs|] == docs;
    results := SortResults(all);
  }

  /** Every result comes from a match in a document that has an id, and
      carries that document's name and content and the match's start and
      span. */
  lemma {:induction false} CollectSound(docs: seq<Document>, query: string, options: SearchOptions, r: SearchResult)
    requires query != [] && r in Collect(docs, query, options)
    ensures exists d, m :: d in docs && HasId(d) && m in Matches(d.content, query, options)
              && r == ResultFor(d, m, options.previewRange)
    decreases |docs|
  {
    var d := docs[|docs| - 1];
    var init := docs[..|docs| - 1];
    if r in Collect(init, query, options) {
      CollectSound(init, query, options, r);
      var d', m :| d' in init && HasId(d') && m in Matches(d'.content, query, options)
                   && r == ResultFor(d', m, options.previewRange);
      assert d' in docs;
    } else {
      var ms := Matches(d.content, query, options);
      var k :| 0 <= k < |ms| && r == DocResults(d, ms, options.previewRange)[k];
      assert ms[k] in ms;
    }
  }

  /** Conversely, every match in a document with an id yields a result. */
  lemma {:induction false} CollectComplete(docs: seq<Document>, query: string, options: SearchOptions, d: Document, m: MatchInfo)
    requires query != [] && d in docs && HasId(d) && m in Matches(d.content, query, options)
    ensures ResultFor(d, m, options.previewRange) in Collect(docs, query, options)
    decreases |docs|
  {
    var last := docs[|docs| - 1];
    var init := docs[..|docs| - 1];
    if d in init {
      CollectComplete(init, query, options, d, m);
    } else {
      assert d == last by {
        assert docs == init + [last];
      }
      var ms := Matches(d.content, query, options);
      var k :| 0 <= k < |ms| && ms[k] == m;
      assert DocResults(d, ms, options.previewRange)[k] == ResultFor(d, m, options.previewRange);
    }
  }

  /** What `search` promises: nothing for a blank query; otherwise results
      ordered by span, shortest first, each taken from a match in a
      document with an id. */
  lemma SearchSpecProperties(query: string, docs: seq<Document>, options: SearchOptions)
    ensures IsBlank(query) ==> SearchSpec(query, docs, options) == []
    ensures SortedByLength(SearchSpec(query, docs, options))
    ensures !IsBlank(query) ==>
              multiset(SearchSpec(query, docs, options)) == multiset(Collect(docs, query, options))
    ensures !IsBlank(query) ==> forall len ::
              WithLength(SearchSpec(query, docs, options), len) == WithLength(Collect(docs, query, options), len)
    ensures forall r :: r in SearchSpec(query, docs, options) ==>
              exists d, m :: d in docs && HasId(d) && m in Matches(d.content, query, options)
                && r == ResultFor(d, m, options.previewRange)
    ensures forall d, m :: !IsBlank(query) && d in docs && HasId(d) && m in Matches(d.content, query, options) ==>
              ResultFor(d, m, options.previewRange) in SearchSpec(query, docs, options)
  {
    if !IsBlank(query) {
      assert IsBlank([]);
      assert query != [];
      SortResultsSpec(Collect(docs, query, options));
      forall r | r in SearchSpec(query, docs, options)
        ensures exists d, m :: d in docs && HasId(d) && m in Matches(d.content, query, options)
                  && r == ResultFor(d, m, options.previewRange)
      {
        assert r in multiset(Collect(docs, query, options));
        CollectSound(docs, query, options, r);
      }
      forall d, m | d in docs && HasId(d) && m in Matches(d.content, query, options)
        ensures ResultFor(d, m, options.previewRange) in SearchSpec(query, docs, options)
      {
        CollectComplete(docs, query, options, d, m);
        assert ResultFor(d, m, options.previewRange) in multiset(SearchSpec(query, docs, options));
      }
    }
  }

  // =====================================================================
  // Behaviour on concrete inputs

  /** Exact search does not report overlapping occurrences: in "ababab"
      "aba" is found once, at 0. */
  lemma ExactSkipsOverlap()
    ensures ExactMatches("ababab", "aba") == [ExactMatch(0, 3)]
  {
    var s := Lower("ababab");
    assert s == "ababab";
    assert Lower("aba") == "aba";
    assert s[0..3] == "aba";
    assert IndexOf(s, "aba", 0) == 0;
    assert IndexOf(s, "aba", 3) == -1 by {
      assert s[3..6] != "aba";
    }
  }

  /** The scan stops at the first start from which no hit is found:
      in "axxxxab" the hit "ab" at 5 is never reached, because the first
      'a' has its 'b' too far away. */
  lemma IntervalStopsAtFirstMiss()
    ensures IntervalMatches("axxxxab", "ab", 0) == []
  {
    var s := Lower("axxxxab");
    assert s == "axxxxab";
    assert Lower("ab") == "ab";
    assert FindChar(s, 'a', 0) == 0;
    assert FindChar(s, 'b', 1) == 6;
    assert Chain(s, "ab", 0, 0, 0, []) == None;
  }

  /** "abc" within gap 2 in "ab.b.c" at positions 0, 3 and 5. */
  lemma SpreadHit()
    ensures InOrderUpToCase("ab.b.c", "abc", 2, MatchInfo(0, 6, [0, 3, 5]))
  {
    var c, w, ps := "ab.b.c", "abc", [0, 3, 5];
    forall i | 0 <= i < |w|
      ensures 0 <= ps[i] < |c| && LowerChar(c[ps[i]]) == LowerChar(w[i])
    {
      if i == 0 {
        assert c[ps[i]] == 'a' == w[i];
      } else if i == 1 {
        assert c[ps[i]] == 'b' == w[i];
      } else {
        assert c[ps[i]] == 'c' == w[i];
      }
    }
    forall i | 0 < i < |w|
      ensures ps[i - 1] < ps[i] && ps[i] - ps[i - 1] - 1 <= 2
    {
    }
    forall k | 0 <= k < |ps|
      ensures 0 <= ps[k] < 6
    {
    }
  }

  /** Each character is taken at its first occurrence, even where a later
      one would keep the gaps small: in "ab.b.c" the positions 0, 3, 5 for
      "abc" are a hit within gap 2, yet the greedy chain 0, 1, 5 breaks the
      limit and nothing is found. */
  lemma IntervalGreedyChain()
    ensures InOrderUpToCase("ab.b.c", "abc", 2, MatchInfo(0, 6, [0, 3, 5]))
    ensures IntervalMatches("ab.b.c", "abc", 2) == []
  {
    SpreadHit();
    var s := Lower("ab.b.c");
    var q := Lower("abc");
    assert s == "ab.b.c" && q == "abc";
    assert SingleMatch(s, q, 2, 0).None? by {
      assert FindChar(s, 'a', 0) == 0;
      assert FindChar(s, 'b', 1) == 1;
      assert FindChar(s, 'c', 2) == 5;
      assert Chain(s, "abc", 2, 0, 0, []) == None;
    }
    IntervalFromStop(s, q, 2, 0, []);
  }
}
