/** Worked scenarios of the engine, stated on the specification functions. */
module Scenarios {
  import opened Bytes
  import opened ByteSearch
  import opened Matching
  import opened Patching

  const Hello: seq<byte> := [104, 101, 108, 108, 111]
  const Xs: seq<byte> := [88, 88, 88]
  const World: seq<byte> := [119, 111, 114, 108, 100]

  /** "XXX" occurs in "helloXXXworld" only at offset 5. */
  lemma HelloOccurrences()
    ensures OccurrencesFrom(Hello + Xs + World, Xs, 0) == [5]
  {
    var data := Hello + Xs + World;
    forall i | 0 <= i < 5 || 8 <= i < |data|
      ensures !OccursAt(data, Xs, i)
    {
      if i + 3 <= |data| {
        assert data[i..i + 3][0] == data[i] != 88;
      }
    }
    assert !OccursAt(data, Xs, 6) by { assert data[6..9][2] == 119; }
    assert !OccursAt(data, Xs, 7) by { assert data[7..10][1] == 119; }
    assert OccursAt(data, Xs, 5) by { assert data[5..8] == Xs; }
    OccurrencesSkip(data, Xs, 0, 5);
    OccurrencesSkip(data, Xs, 6, |data|);
  }

  /** "helloXXXworld" with the exact pattern "XXX" in null mode: one hit at offset 5 of
      length 3, and the patched buffer is "hello" + three zero bytes + "world". */
  lemma HelloWorldNull()
    ensures var data := Hello + Xs + World;
      var p := Pattern("XXX", Xs, [120, 120, 120], Xs);
      var sorted := SortDesc(AllMatches(data, [p], false));
      && sorted == [TaggedMatch(Match(5, 3, Xs), "XXX")]
      && AllInBounds(sorted, |data|)
      && Patch(data, sorted, NullBytes, []) == Hello + [0, 0, 0] + World
  {
    var data := Hello + Xs + World;
    var p := Pattern("XXX", Xs, [120, 120, 120], Xs);
    HelloOccurrences();
    assert CandidateMatches(data, Xs) == [Match(5, 3, Xs)];
    assert !HasWildcards(p.text);
    assert ExactMatches(data, p, false) == [Match(5, 3, Xs)] by {
      ExactMatchesOrder(data, p, false);
    }
    assert [p][..0] == [];
    assert PatternMatches(data, p, false) == [Match(5, 3, Xs)];
    assert Tag([Match(5, 3, Xs)], "XXX") == [TaggedMatch(Match(5, 3, Xs), "XXX")];
    var all := AllMatches(data, [p], false);
    assert all == AllMatches(data, [], false) + Tag(PatternMatches(data, p, false), p.text);
    assert all == [TaggedMatch(Match(5, 3, Xs), "XXX")];
    assert SortDesc(all) == all;
    var patched := Patch(data, all, NullBytes, []);
    assert all[..0] == [];
    assert Patch(data, all[..0], NullBytes, []) == data;
    assert patched == Overwrite(data, Match(5, 3, Xs), NullBytes, []);
    assert Replacement(NullBytes, [], 3) == [0, 0, 0];
  }

  /** Two overlapping hits [0,5) and [3,8) applied in descending offset order: byte 3
      ends with the replacement of the hit at offset 0. */
  lemma OverlapTieBreak(buf: seq<byte>, ph: seq<byte>)
    requires |buf| >= 8 && |ph| > 0
    ensures var ms := [TaggedMatch(Match(3, 5, buf[3..8]), "b"), TaggedMatch(Match(0, 5, buf[0..5]), "a")];
      && SortedDesc(ms) && AllInBounds(ms, |buf|)
      && Patch(buf, ms, Placeholder, ph)[3] == ph[3 % |ph|]
  {
    var ms := [TaggedMatch(Match(3, 5, buf[3..8]), "b"), TaggedMatch(Match(0, 5, buf[0..5]), "a")];
    LowestOffsetWins(buf, ms, Placeholder, ph, 3, 1);
  }

  const FooMixed: seq<byte> := [70, 111, 111]   // "Foo"
  const FooLower: seq<byte> := [102, 111, 111]  // "foo"
  const FooUpper: seq<byte> := [70, 79, 79]     // "FOO"
  const FooOdd: seq<byte> := [102, 79, 111]     // "fOo"

  /** "Foo" searched ignoring case reports each literal occurrence of "Foo", "foo" and
      "FOO" exactly once, and never an occurrence of the mixed form "fOo". */
  lemma FooIgnoringCase(data: seq<byte>, i: nat)
    ensures var p := Pattern("Foo", FooMixed, FooLower, FooUpper);
      && multiset(ExactMatches(data, p, true))[Match(i, 3, FooMixed)] == (if i < |data| && OccursAt(data, FooMixed, i) then 1 else 0)
      && multiset(ExactMatches(data, p, true))[Match(i, 3, FooLower)] == (if i < |data| && OccursAt(data, FooLower, i) then 1 else 0)
      && multiset(ExactMatches(data, p, true))[Match(i, 3, FooUpper)] == (if i < |data| && OccursAt(data, FooUpper, i) then 1 else 0)
      && multiset(ExactMatches(data, p, true))[Match(i, 3, FooOdd)] == 0
  {
    var p := Pattern("Foo", FooMixed, FooLower, FooUpper);
    ExactMatchCount(data, p, true, FooMixed, i);
    ExactMatchCount(data, p, true, FooLower, i);
    ExactMatchCount(data, p, true, FooUpper, i);
    ExactMatchCount(data, p, true, FooOdd, i);
    assert FooMixed != FooLower && FooMixed != FooUpper && FooLower != FooUpper by {
      assert FooMixed[0] != FooLower[0] && FooMixed[1] != FooUpper[1] && FooLower[0] != FooUpper[0];
    }
    assert FooOdd != FooMixed && FooOdd != FooLower && FooOdd != FooUpper by {
      assert FooOdd[0] != FooMixed[0] && FooOdd[1] != FooLower[1] && FooOdd[0] != FooUpper[0];
    }
  }

  /** An all-lower-case pattern searched ignoring case coincides with its lower-case
      candidate, so each of its occurrences is reported twice. */
  lemma LowerCaseReportedTwice(data: seq<byte>, i: nat)
    requires i < |data| && OccursAt(data, FooLower, i)
    ensures multiset(ExactMatches(data, Pattern("foo", FooLower, FooLower, FooUpper), true))[Match(i, 3, FooLower)] == 2
  {
    var p := Pattern("foo", FooLower, FooLower, FooUpper);
    ExactMatchCount(data, p, true, FooLower, i);
    assert FooLower != FooUpper by { assert FooLower[0] != FooUpper[0]; }
  }
}
