/** findMatches: exact (case-candidate) scanning and wildcard matching over printable runs. */
module Matching {
  import opened Bytes
  import opened ByteSearch
  import opened AsciiStrings
  import opened Glob

  /** The pattern is treated as a wildcard pattern when it contains '*' or '?'. */
  function HasWildcards(p: seq<char>): (w: bool)
    ensures w <==> exists i :: 0 <= i < |p| && IsWildcard(p[i])
  {
    '*' in p || '?' in p
  }

  /** The needles scanned for an exact pattern: its own encoding, then, only when the
      search ignores case, the encodings of its lower-case and upper-case forms. */
  function Candidates(p: Pattern, ignoreCase: bool): (cs: seq<seq<byte>>)
    ensures 0 < |cs| && cs[0] == p.encoded
    ensures |cs| == if ignoreCase then 3 else 1
  {
    if ignoreCase then [p.encoded, p.lowerEncoded, p.upperEncoded] else [p.encoded]
  }

  /** The scans for the given needles, one after the other. */
  function ScanAll(data: seq<byte>, cs: seq<seq<byte>>): seq<Match> {
    if |cs| == 0 then [] else ScanAll(data, cs[..|cs| - 1]) + CandidateMatches(data, cs[|cs| - 1])
  }

  function ExactMatches(data: seq<byte>, p: Pattern, ignoreCase: bool): seq<Match> {
    ScanAll(data, Candidates(p, ignoreCase))
  }

  /** A hit covering a whole run. */
  function RunMatch(r: Run): Match {
    Match(r.offset, |r.text|, r.text)
  }

  /** The whole-run hits of the runs whose text matches the glob pattern, in run order. */
  function WildcardMatches(runs: seq<Run>, p: seq<char>, ignoreCase: bool): seq<Match> {
    if |runs| == 0 then []
    else
      WildcardMatches(runs[..|runs| - 1], p, ignoreCase)
      + (if GlobMatch(p, runs[|runs| - 1].text, ignoreCase) then [RunMatch(runs[|runs| - 1])] else [])
  }

  /** What findMatches returns for one pattern. */
  function PatternMatches(data: seq<byte>, p: Pattern, ignoreCase: bool): seq<Match> {
    if HasWildcards(p.text) then WildcardMatches(AsciiRuns(data), p.text, ignoreCase)
    else ExactMatches(data, p, ignoreCase)
  }

  method FindMatches(data: seq<byte>, pattern: Pattern, ignoreCase: bool) returns (matches: seq<Match>)
    ensures matches == PatternMatches(data, pattern, ignoreCase)
  {
    matches := [];
    if HasWildcards(pattern.text) {
      var asciiStrings := ExtractAsciiStrings(data);
      for k := 0 to |asciiStrings|
        invariant matches == WildcardMatches(asciiStrings[..k], pattern.text, ignoreCase)
      {
        var run := asciiStrings[k];
        if GlobMatch(pattern.text, run.text, ignoreCase) {
          matches := matches + [Match(run.offset, |run.text|, run.text)];
        }
        assert asciiStrings[..k + 1][..k] == asciiStrings[..k];
      }
      assert asciiStrings[..|asciiStrings|] == asciiStrings;
    } else {
      var candidates := [pattern.encoded];
      if ignoreCase {
        candidates := candidates + [pattern.lowerEncoded];
        candidates := candidates + [pattern.upperEncoded];
      }
      for k := 0 to |candidates|
        invariant matches == ScanAll(data, candidates[..k])
      {
        var found := ScanCandidate(data, candidates[k]);
        assert candidates[..k + 1][..k] == candidates[..k];
        matches := matches + found;
      }
      assert candidates[..|candidates|] == candidates == Candidates(pattern, ignoreCase);
    }
  }

  /** Every hit of an exact scan has its needle's length, lies inside the buffer and
      covers bytes equal to its text. */
  lemma {:induction false} ScanAllInBounds(data: seq<byte>, cs: seq<seq<byte>>)
    ensures forall m :: m in ScanAll(data, cs) ==>
      InBounds(m, |data|) && m.offset < |data| && data[m.offset..m.offset + m.length] == m.text && |m.text| == m.length
  {
    if |cs| > 0 {
      ScanAllInBounds(data, cs[..|cs| - 1]);
      CandidateMatchesExact(data, cs[|cs| - 1]);
    }
  }

  /** How often one hit appears in the exact scan: once per candidate equal to its needle,
      provided the needle occurs there. So an all-lower-case pattern searched ignoring
      case reports each occurrence twice (original and lower-case candidates coincide). */
  lemma {:induction false} ScanAllCount(data: seq<byte>, cs: seq<seq<byte>>, c: seq<byte>, i: nat)
    ensures multiset(ScanAll(data, cs))[Match(i, |c|, c)]
         == if i < |data| && OccursAt(data, c, i) then multiset(cs)[c] else 0
  {
    if |cs| > 0 {
      var init := cs[..|cs| - 1];
      var last := cs[|cs| - 1];
      ScanAllCount(data, init, c, i);
      OccurrenceCount(data, c, last, 0, i);
      assert cs == init + [last];
      assert multiset(cs) == multiset(init) + multiset{last};
      var front := ScanAll(data, init);
      var back := CandidateMatches(data, last);
      assert ScanAll(data, cs) == front + back;
      assert multiset(front + back) == multiset(front) + multiset(back);
    }
  }

  /** The exact search reports Match(i, |c|, c) exactly as many times as c is among the
      candidates, when c occurs at i, and never otherwise. Without the case flag only the
      pattern's own encoding is a candidate. */
  lemma ExactMatchCount(data: seq<byte>, p: Pattern, ignoreCase: bool, c: seq<byte>, i: nat)
    ensures multiset(ExactMatches(data, p, ignoreCase))[Match(i, |c|, c)]
         == if i < |data| && OccursAt(data, c, i) then multiset(Candidates(p, ignoreCase))[c] else 0
  {
    ScanAllCount(data, Candidates(p, ignoreCase), c, i);
  }

  /** The exact search is the original-encoding scan, followed, only when ignoring case,
      by the lower-case and upper-case scans. */
  lemma ExactMatchesOrder(data: seq<byte>, p: Pattern, ignoreCase: bool)
    ensures ExactMatches(data, p, ignoreCase)
         == CandidateMatches(data, p.encoded)
            + (if ignoreCase then CandidateMatches(data, p.lowerEncoded) + CandidateMatches(data, p.upperEncoded) else [])
  {
    var cs := Candidates(p, ignoreCase);
    assert cs[..1] == [p.encoded];
    assert ScanAll(data, [p.encoded]) == CandidateMatches(data, p.encoded) by {
      assert [p.encoded][..0] == [];
    }
    if ignoreCase {
      assert cs[..2] == [p.encoded, p.lowerEncoded];
      assert cs[..2][..1] == [p.encoded];
      assert ScanAll(data, cs[..2]) == CandidateMatches(data, p.encoded) + CandidateMatches(data, p.lowerEncoded);
      assert ScanAll(data, cs) == ScanAll(data, cs[..2]) + CandidateMatches(data, p.upperEncoded);
    }
  }

  /** The wildcard hits are exactly the whole-run hits of the runs whose text matches. */
  lemma {:induction false} WildcardMatchesExact(runs: seq<Run>, p: seq<char>, ignoreCase: bool)
    ensures forall m :: m in WildcardMatches(runs, p, ignoreCase) ==>
      exists q :: q in runs && GlobMatch(p, q.text, ignoreCase) && m == RunMatch(q)
    ensures forall q :: q in runs ==> (RunMatch(q) in WildcardMatches(runs, p, ignoreCase) <==> GlobMatch(p, q.text, ignoreCase))
  {
    if |runs| > 0 {
      var init := runs[..|runs| - 1];
      WildcardMatchesExact(init, p, ignoreCase);
      assert runs == init + [runs[|runs| - 1]];
      forall q | q in runs && RunMatch(q) in WildcardMatches(runs, p, ignoreCase)
        ensures GlobMatch(p, q.text, ignoreCase)
      {
        var m := RunMatch(q);
        if m in WildcardMatches(init, p, ignoreCase) {
          var q' :| q' in init && GlobMatch(p, q'.text, ignoreCase) && m == RunMatch(q');
          assert q' == q;
        }
      }
    }
  }

  /** Wildcard hits of a buffer: each covers one whole maximal printable run whose text
      matches the pattern, and every such run yields a hit. */
  lemma WildcardHitsAreRuns(data: seq<byte>, p: seq<char>, ignoreCase: bool)
    ensures forall m :: m in WildcardMatches(AsciiRuns(data), p, ignoreCase) ==>
      exists q :: q in AsciiRuns(data) && IsMaximalRun(data, q) && GlobMatch(p, q.text, ignoreCase)
        && m.offset == q.offset && m.length == |q.text| && m.text == q.text
    ensures forall q :: q in AsciiRuns(data) && GlobMatch(p, q.text, ignoreCase) ==>
      RunMatch(q) in WildcardMatches(AsciiRuns(data), p, ignoreCase)
  {
    WildcardMatchesExact(AsciiRuns(data), p, ignoreCase);
    AsciiRunsSplit(data);
  }

  /** Every hit findMatches reports lies inside the buffer and covers bytes equal to its text. */
  lemma PatternMatchesInBounds(data: seq<byte>, p: Pattern, ignoreCase: bool)
    ensures forall m :: m in PatternMatches(data, p, ignoreCase) ==>
      InBounds(m, |data|) && data[m.offset..m.offset + m.length] == m.text
  {
    if HasWildcards(p.text) {
      WildcardHitsAreRuns(data, p.text, ignoreCase);
    } else {
      ScanAllInBounds(data, Candidates(p, ignoreCase));
    }
  }
}
