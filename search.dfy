/** Naive byte search and the overlapping scan built on it. */
module ByteSearch {
  import opened Bytes

  /** The needle n occurs in h starting at position i. */
  predicate OccursAt(h: seq<byte>, n: seq<byte>, i: int) {
    0 <= i && i + |n| <= |h| && h[i..i + |n|] == n
  }

  /** First position at or after startPos where needle occurs in haystack, or -1. */
  method FindBytes(haystack: seq<byte>, needle: seq<byte>, startPos: nat) returns (r: int)
    ensures r == -1 || (startPos <= r <= |haystack| - |needle| && OccursAt(haystack, needle, r))
    ensures r != -1 ==> forall i :: startPos <= i < r ==> !OccursAt(haystack, needle, i)
    ensures r == -1 ==> forall i :: startPos <= i ==> !OccursAt(haystack, needle, i)
    ensures |needle| > |haystack| ==> r == -1
  {
    var i: int := startPos;
    while i <= |haystack| - |needle|
      invariant startPos <= i
      invariant forall k :: startPos <= k < i ==> !OccursAt(haystack, needle, k)
      decreases |haystack| - |needle| - i
    {
      var found := true;
      var j := 0;
      while j < |needle|
        invariant 0 <= j <= |needle|
        invariant found && haystack[i..i + j] == needle[..j]
      {
        if haystack[i + j] != needle[j] {
          assert haystack[i..i + |needle|][j] != needle[j];
          found := false;
          break;
        }
        assert haystack[i..i + j + 1] == haystack[i..i + j] + [haystack[i + j]];
        assert needle[..j + 1] == needle[..j] + [needle[j]];
        j := j + 1;
      }
      if found {
        assert needle[..j] == needle;
        return i;
      }
      i := i + 1;
    }
    return -1;
  }

  /** The positions p with pos <= p < |h| where n occurs, in increasing order. */
  function OccurrencesFrom(h: seq<byte>, n: seq<byte>, pos: nat): seq<nat>
    decreases |h| - pos
  {
    if pos >= |h| then []
    else if OccursAt(h, n, pos) then [pos] + OccurrencesFrom(h, n, pos + 1)
    else OccurrencesFrom(h, n, pos + 1)
  }

  lemma {:induction false} OccurrencesBounded(h: seq<byte>, n: seq<byte>, pos: nat)
    decreases |h| - pos
    ensures forall k :: 0 <= k < |OccurrencesFrom(h, n, pos)| ==>
      pos <= OccurrencesFrom(h, n, pos)[k] < |h| && OccursAt(h, n, OccurrencesFrom(h, n, pos)[k])
  {
    if pos < |h| {
      OccurrencesBounded(h, n, pos + 1);
      var rest := OccurrencesFrom(h, n, pos + 1);
      if OccursAt(h, n, pos) {
        var r := [pos] + rest;
        assert OccurrencesFrom(h, n, pos) == r;
        forall k | 0 <= k < |r|
          ensures pos <= r[k] < |h| && OccursAt(h, n, r[k])
        {
          if k > 0 {
            assert r[k] == rest[k - 1];
          }
        }
      } else {
        assert OccurrencesFrom(h, n, pos) == rest;
      }
    }
  }

  lemma {:induction false} OccurrencesIncreasing(h: seq<byte>, n: seq<byte>, pos: nat)
    decreases |h| - pos
    ensures forall k, l :: 0 <= k < l < |OccurrencesFrom(h, n, pos)| ==>
      OccurrencesFrom(h, n, pos)[k] < OccurrencesFrom(h, n, pos)[l]
  {
    if pos < |h| {
      OccurrencesIncreasing(h, n, pos + 1);
      OccurrencesBounded(h, n, pos + 1);
      var rest := OccurrencesFrom(h, n, pos + 1);
      if OccursAt(h, n, pos) {
        var r := [pos] + rest;
        assert OccurrencesFrom(h, n, pos) == r;
        forall k, l | 0 <= k < l < |r|
          ensures r[k] < r[l]
        {
          assert r[l] == rest[l - 1];
          if k > 0 {
            assert r[k] == rest[k - 1];
          }
        }
      } else {
        assert OccurrencesFrom(h, n, pos) == rest;
      }
    }
  }

  lemma {:induction false} OccurrencesComplete(h: seq<byte>, n: seq<byte>, pos: nat)
    decreases |h| - pos
    ensures forall i :: pos <= i < |h| ==> (i in OccurrencesFrom(h, n, pos) <==> OccursAt(h, n, i))
  {
    if pos < |h| {
      OccurrencesComplete(h, n, pos + 1);
      OccurrencesBounded(h, n, pos + 1);
      var rest := OccurrencesFrom(h, n, pos + 1);
      assert pos !in rest;
      if OccursAt(h, n, pos) {
        assert OccurrencesFrom(h, n, pos) == [pos] + rest;
      } else {
        assert OccurrencesFrom(h, n, pos) == rest;
      }
    }
  }

  /** The occurrence list holds exactly the positions in [pos, |h|) where n occurs,
      each once, in strictly increasing order. */
  lemma OccurrencesExact(h: seq<byte>, n: seq<byte>, pos: nat)
    ensures var r := OccurrencesFrom(h, n, pos);
      && (forall k :: 0 <= k < |r| ==> pos <= r[k] < |h| && OccursAt(h, n, r[k]))
      && (forall k, l :: 0 <= k < l < |r| ==> r[k] < r[l])
      && (forall i :: pos <= i < |h| ==> (i in r <==> OccursAt(h, n, i)))
  {
    OccurrencesBounded(h, n, pos);
    OccurrencesIncreasing(h, n, pos);
    OccurrencesComplete(h, n, pos);
  }

  /** The hits of needle c at the given offsets. */
  function AtOffsets(offsets: seq<nat>, c: seq<byte>): (ms: seq<Match>)
    ensures |ms| == |offsets|
  {
    if |offsets| == 0 then [] else [Match(offsets[0], |c|, c)] + AtOffsets(offsets[1..], c)
  }

  /** What the overlapping scan for one candidate needle reports on data. */
  function CandidateMatches(data: seq<byte>, c: seq<byte>): seq<Match> {
    AtOffsets(OccurrencesFrom(data, c, 0), c)
  }

  /** Positions skipped because no occurrence starts there do not change the occurrence list. */
  lemma {:induction false} OccurrencesSkip(h: seq<byte>, n: seq<byte>, pos: nat, r: nat)
    requires pos <= r
    requires forall i :: pos <= i < r ==> !OccursAt(h, n, i)
    ensures OccurrencesFrom(h, n, pos) == OccurrencesFrom(h, n, r)
    decreases r - pos
  {
    if pos < r {
      OccurrencesSkip(h, n, pos + 1, r);
    }
  }

  /** One hit of the scan: the first occurrence at or after pos heads the remaining list. */
  lemma ScanStep(data: seq<byte>, c: seq<byte>, pos: nat, index: nat)
    requires pos < |data| && pos <= index
    requires OccursAt(data, c, index)
    requires forall i :: pos <= i < index ==> !OccursAt(data, c, i)
    ensures index < |data|
    ensures AtOffsets(OccurrencesFrom(data, c, pos), c)
         == [Match(index, |c|, data[index..index + |c|])] + AtOffsets(OccurrencesFrom(data, c, index + 1), c)
  {
    if |c| == 0 {
      assert OccursAt(data, c, pos);
    }
    OccurrencesSkip(data, c, pos, index);
    var rest := OccurrencesFrom(data, c, index + 1);
    assert OccurrencesFrom(data, c, index) == [index] + rest;
    assert ([index] + rest)[1..] == rest;
  }

  /** Appending the hit at index keeps the scan's invariant, now from index + 1. */
  lemma ScanAdvance(data: seq<byte>, c: seq<byte>, pos: nat, index: nat, matches: seq<Match>)
    requires pos < |data| && pos <= index
    requires OccursAt(data, c, index)
    requires forall i :: pos <= i < index ==> !OccursAt(data, c, i)
    requires matches + AtOffsets(OccurrencesFrom(data, c, pos), c) == CandidateMatches(data, c)
    ensures index < |data|
    ensures (matches + [Match(index, |c|, data[index..index + |c|])]) + AtOffsets(OccurrencesFrom(data, c, index + 1), c)
         == CandidateMatches(data, c)
  {
    ScanStep(data, c, pos, index);
    var hit := Match(index, |c|, data[index..index + |c|]);
    var rest := AtOffsets(OccurrencesFrom(data, c, index + 1), c);
    assert (matches + [hit]) + rest == matches + ([hit] + rest);
  }

  /** The scan restarts one byte after each hit, so overlapping occurrences are all
      reported; the loop stops when findBytes reports -1 or the position reaches the end. */
  method ScanCandidate(data: seq<byte>, candidate: seq<byte>) returns (matches: seq<Match>)
    ensures matches == CandidateMatches(data, candidate)
  {
    matches := [];
    var pos: nat := 0;
    while pos < |data|
      invariant pos <= |data|
      invariant matches + AtOffsets(OccurrencesFrom(data, candidate, pos), candidate) == CandidateMatches(data, candidate)
      decreases |data| - pos
    {
      var index := FindBytes(data, candidate, pos);
      if index == -1 {
        OccurrencesSkip(data, candidate, pos, |data|);
        break;
      }
      ScanAdvance(data, candidate, pos, index, matches);
      matches := matches + [Match(index, |candidate|, data[index..index + |candidate|])];
      pos := index + 1;
    }
  }

  lemma {:induction false} AtOffsetsIndex(offsets: seq<nat>, c: seq<byte>, k: nat)
    requires k < |offsets|
    ensures AtOffsets(offsets, c)[k] == Match(offsets[k], |c|, c)
    decreases k
  {
    if k > 0 {
      AtOffsetsIndex(offsets[1..], c, k - 1);
    }
  }

  /** The hits at a list of offsets are the candidate at exactly those offsets. */
  lemma AtOffsetsMember(offsets: seq<nat>, c: seq<byte>, i: nat)
    ensures Match(i, |c|, c) in AtOffsets(offsets, c) <==> i in offsets
  {
    var ms := AtOffsets(offsets, c);
    forall k | 0 <= k < |ms|
      ensures ms[k] == Match(offsets[k], |c|, c)
    {
      AtOffsetsIndex(offsets, c, k);
    }
    if i in offsets {
      var k :| 0 <= k < |offsets| && offsets[k] == i;
      assert ms[k] == Match(i, |c|, c);
    }
  }

  /** The scan for one candidate reports each occurrence of the candidate exactly once,
      overlapping ones included, in strictly increasing offset order; every hit has the
      candidate's length, lies inside the buffer and covers bytes equal to the candidate. */
  lemma CandidateMatchesExact(data: seq<byte>, c: seq<byte>)
    ensures var ms := CandidateMatches(data, c);
      && (forall k :: 0 <= k < |ms| ==>
            ms[k].length == |c| && ms[k].text == c && InBounds(ms[k], |data|)
            && ms[k].offset < |data| && data[ms[k].offset..ms[k].offset + ms[k].length] == c)
      && (forall k, l :: 0 <= k < l < |ms| ==> ms[k].offset < ms[l].offset)
      && (forall i :: 0 <= i < |data| ==> (Match(i, |c|, c) in ms <==> OccursAt(data, c, i)))
  {
    var offs := OccurrencesFrom(data, c, 0);
    var ms := CandidateMatches(data, c);
    OccurrencesExact(data, c, 0);
    forall k | 0 <= k < |ms|
      ensures ms[k] == Match(offs[k], |c|, c)
    {
      AtOffsetsIndex(offs, c, k);
    }
    forall i | 0 <= i < |data|
      ensures Match(i, |c|, c) in ms <==> i in offs
    {
      AtOffsetsMember(offs, c, i);
    }
  }

  /** How many times one particular hit appears among the hits of candidate c2 scanned
      from position pos: once if it is an occurrence of c2 itself in range, otherwise never. */
  lemma {:induction false} OccurrenceCount(h: seq<byte>, c: seq<byte>, c2: seq<byte>, pos: nat, i: nat)
    decreases |h| - pos
    ensures multiset(AtOffsets(OccurrencesFrom(h, c2, pos), c2))[Match(i, |c|, c)]
         == if c2 == c && pos <= i < |h| && OccursAt(h, c, i) then 1 else 0
  {
    var target := Match(i, |c|, c);
    if pos < |h| {
      OccurrenceCount(h, c, c2, pos + 1, i);
      var rest := OccurrencesFrom(h, c2, pos + 1);
      var tail := AtOffsets(rest, c2);
      if OccursAt(h, c2, pos) {
        assert OccurrencesFrom(h, c2, pos) == [pos] + rest;
        assert ([pos] + rest)[1..] == rest;
        var head := Match(pos, |c2|, c2);
        assert AtOffsets([pos] + rest, c2) == [head] + tail;
        assert multiset([head] + tail) == multiset{head} + multiset(tail);
        assert (head == target) == (c2 == c && pos == i);
      } else {
        assert OccurrencesFrom(h, c2, pos) == rest;
      }
    } else {
      assert OccurrencesFrom(h, c2, pos) == [];
    }
  }
}
