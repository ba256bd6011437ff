/** processFile: merging the hits of all patterns, ordering them, and overwriting them
    in a copy of the buffer. */
module Patching {
  import opened Bytes
  import opened Matching

  /** 'null' writes zero bytes; every other mode value writes the placeholder. */
  datatype Mode = NullBytes | Placeholder

  /** A hit together with the pattern that produced it. */
  datatype TaggedMatch = TaggedMatch(hit: Match, pattern: seq<char>)

  /** What is reported for one applied hit. */
  datatype Reported = Reported(text: seq<byte>, offset: nat)

  datatype PatchResult = PatchResult(patchCount: nat, matches: seq<Reported>)

  function Tag(ms: seq<Match>, p: seq<char>): (ts: seq<TaggedMatch>)
    ensures |ts| == |ms|
  {
    seq(|ms|, k requires 0 <= k < |ms| => TaggedMatch(ms[k], p))
  }

  /** The hits of every pattern, in pattern order, each tagged with its pattern. */
  function AllMatches(data: seq<byte>, patterns: seq<Pattern>, ignoreCase: bool): seq<TaggedMatch> {
    if |patterns| == 0 then []
    else
      var p := patterns[|patterns| - 1];
      AllMatches(data, patterns[..|patterns| - 1], ignoreCase) + Tag(PatternMatches(data, p, ignoreCase), p.text)
  }

  // ---------------------------------------------------------------------------------
  // Ordering. Array.prototype.sort with the comparator (a, b) => b.offset - a.offset
  // is a stable sort by descending offset.

  predicate SortedDesc(s: seq<TaggedMatch>) {
    forall k, l :: 0 <= k < l < |s| ==> s[k].hit.offset >= s[l].hit.offset
  }

  /** Puts m in front of the first element whose offset is not larger than its own. */
  function Insert(m: TaggedMatch, s: seq<TaggedMatch>): seq<TaggedMatch> {
    if |s| == 0 || m.hit.offset >= s[0].hit.offset then [m] + s
    else [s[0]] + Insert(m, s[1..])
  }

  function SortDesc(ms: seq<TaggedMatch>): (sorted: seq<TaggedMatch>)
    ensures multiset(sorted) == multiset(ms)
  {
    if |ms| == 0 then []
    else
      var rest := SortDesc(ms[1..]);
      InsertPermutation(ms[0], rest);
      assert ms == [ms[0]] + ms[1..];
      Insert(ms[0], rest)
  }

  /** The elements of s with offset v, in their order in s. */
  function WithOffset(s: seq<TaggedMatch>, v: nat): seq<TaggedMatch> {
    if |s| == 0 then []
    else (if s[0].hit.offset == v then [s[0]] else []) + WithOffset(s[1..], v)
  }

  lemma SortedTail(s: seq<TaggedMatch>)
    requires |s| > 0 && SortedDesc(s)
    ensures SortedDesc(s[1..])
  {
    var tail := s[1..];
    forall k, l | 0 <= k < l < |tail|
      ensures tail[k].hit.offset >= tail[l].hit.offset
    {
      assert tail[k] == s[k + 1] && tail[l] == s[l + 1];
    }
  }

  /** No element of s has an offset above b. */
  predicate AllAtMost(s: seq<TaggedMatch>, b: nat) {
    forall k :: 0 <= k < |s| ==> s[k].hit.offset <= b
  }

  lemma {:induction false} InsertPermutation(m: TaggedMatch, s: seq<TaggedMatch>)
    ensures multiset(Insert(m, s)) == multiset(s) + multiset{m}
  {
    if |s| > 0 && m.hit.offset < s[0].hit.offset {
      InsertPermutation(m, s[1..]);
      assert s == [s[0]] + s[1..];
    }
  }

  lemma {:induction false} InsertBound(m: TaggedMatch, s: seq<TaggedMatch>, b: nat)
    requires AllAtMost(s, b) && m.hit.offset <= b
    ensures AllAtMost(Insert(m, s), b)
  {
    if |s| > 0 && m.hit.offset < s[0].hit.offset {
      var tail := s[1..];
      assert AllAtMost(tail, b) by {
        forall k | 0 <= k < |tail| ensures tail[k].hit.offset <= b {
          assert tail[k] == s[k + 1];
        }
      }
      InsertBound(m, tail, b);
      var r := Insert(m, tail);
      var out := [s[0]] + r;
      assert Insert(m, s) == out;
      forall k | 0 <= k < |out| ensures out[k].hit.offset <= b {
        if k > 0 {
          assert out[k] == r[k - 1];
        }
      }
    }
  }

  lemma {:induction false} InsertSorted(m: TaggedMatch, s: seq<TaggedMatch>)
    requires SortedDesc(s)
    ensures SortedDesc(Insert(m, s))
    ensures multiset(Insert(m, s)) == multiset(s) + multiset{m}
  {
    InsertPermutation(m, s);
    if |s| == 0 || m.hit.offset >= s[0].hit.offset {
      var out := [m] + s;
      assert Insert(m, s) == out;
      forall k, l | 0 <= k < l < |out|
        ensures out[k].hit.offset >= out[l].hit.offset
      {
        assert out[l] == s[l - 1];
        if k > 0 {
          assert out[k] == s[k - 1];
        } else if l > 1 {
          assert s[0].hit.offset >= s[l - 1].hit.offset;
        }
      }
    } else {
      var tail := s[1..];
      SortedTail(s);
      InsertSorted(m, tail);
      assert AllAtMost(tail, s[0].hit.offset) by {
        forall k | 0 <= k < |tail| ensures tail[k].hit.offset <= s[0].hit.offset {
          assert tail[k] == s[k + 1];
        }
      }
      InsertBound(m, tail, s[0].hit.offset);
      var r := Insert(m, tail);
      var out := [s[0]] + r;
      assert Insert(m, s) == out;
      forall k, l | 0 <= k < l < |out|
        ensures out[k].hit.offset >= out[l].hit.offset
      {
        assert out[l] == r[l - 1];
        if k > 0 {
          assert out[k] == r[k - 1];
        }
      }
    }
  }

  /** The sort yields a descending, permuted copy of its input. */
  lemma {:induction false} SortDescSortedPermutation(ms: seq<TaggedMatch>)
    ensures SortedDesc(SortDesc(ms))
    ensures multiset(SortDesc(ms)) == multiset(ms)
    ensures |SortDesc(ms)| == |ms|
  {
    if |ms| > 0 {
      SortDescSortedPermutation(ms[1..]);
      InsertSorted(ms[0], SortDesc(ms[1..]));
      assert ms == [ms[0]] + ms[1..];
    }
    assert |multiset(SortDesc(ms))| == |multiset(ms)|;
  }

  lemma {:induction false} InsertStable(m: TaggedMatch, s: seq<TaggedMatch>, v: nat)
    requires SortedDesc(s)
    ensures WithOffset(Insert(m, s), v) == (if m.hit.offset == v then [m] else []) + WithOffset(s, v)
  {
    if |s| == 0 || m.hit.offset >= s[0].hit.offset {
      assert Insert(m, s) == [m] + s;
      assert ([m] + s)[1..] == s;
    } else {
      var tail := s[1..];
      SortedTail(s);
      InsertStable(m, tail, v);
      var r := Insert(m, tail);
      assert Insert(m, s) == [s[0]] + r;
      assert ([s[0]] + r)[1..] == r;
      assert WithOffset(Insert(m, s), v) == (if s[0].hit.offset == v then [s[0]] else []) + WithOffset(r, v);
      assert WithOffset(s, v) == (if s[0].hit.offset == v then [s[0]] else []) + WithOffset(tail, v);
    }
  }

  /** The sort is stable: hits with the same offset keep their relative order. */
  lemma {:induction false} SortDescStable(ms: seq<TaggedMatch>, v: nat)
    ensures WithOffset(SortDesc(ms), v) == WithOffset(ms, v)
  {
    if |ms| > 0 {
      SortDescStable(ms[1..], v);
      SortDescSortedPermutation(ms[1..]);
      InsertStable(ms[0], SortDesc(ms[1..]), v);
    }
  }

  // ---------------------------------------------------------------------------------
  // Replacement bytes and their application.

  /** Byte i of a replacement: zero in null mode; otherwise the placeholder byte at
      i mod k, or zero when the placeholder encodes to no bytes (undefined || 0). */
  function FillByte(mode: Mode, placeholderBytes: seq<byte>, i: nat): byte {
    if mode == NullBytes || |placeholderBytes| == 0 then 0
    else placeholderBytes[i % |placeholderBytes|]
  }

  function Replacement(mode: Mode, placeholderBytes: seq<byte>, length: nat): (rep: seq<byte>)
    ensures |rep| == length
  {
    seq(length, i requires 0 <= i < length => FillByte(mode, placeholderBytes, i))
  }

  lemma ModShift(i: nat, k: nat)
    requires 0 < k <= i
    ensures i % k == (i - k) % k
  {
    var q, r := (i - k) / k, (i - k) % k;
    assert i - k == q * k + r;
    assert i == (q + 1) * k + r by { assert (q + 1) * k == q * k + k; }
    var q2, r2 := i / k, i % k;
    assert i == q2 * k + r2;
    if q2 > q + 1 {
      assert (q + 2) * k == (q + 1) * k + k;
      MulMono(q + 2, q2, k);
      assert false;
    } else if q2 < q + 1 {
      assert (q + 1) * k == q * k + k;
      MulMono(q2, q, k);
      assert false;
    }
  }

  lemma MulMono(a: int, b: int, k: nat)
    requires a <= b
    ensures a * k <= b * k
  {
    assert b * k - a * k == (b - a) * k;
  }

  /** A replacement is all zeros in null mode or with an empty placeholder; otherwise it
      starts with the placeholder, truncated to the length, and repeats with the
      placeholder's length as period. */
  lemma ReplacementCycles(mode: Mode, placeholderBytes: seq<byte>, length: nat)
    ensures |Replacement(mode, placeholderBytes, length)| == length
    ensures (mode == NullBytes || |placeholderBytes| == 0) ==>
      forall i :: 0 <= i < length ==> Replacement(mode, placeholderBytes, length)[i] == 0
    ensures mode == Placeholder ==>
      forall i :: 0 <= i < length && i < |placeholderBytes| ==> Replacement(mode, placeholderBytes, length)[i] == placeholderBytes[i]
    ensures mode == Placeholder ==>
      forall i :: |placeholderBytes| <= i < length ==>
        Replacement(mode, placeholderBytes, length)[i] == Replacement(mode, placeholderBytes, length)[i - |placeholderBytes|]
  {
    var rep := Replacement(mode, placeholderBytes, length);
    var k := |placeholderBytes|;
    if mode == Placeholder && k > 0 {
      forall i | k <= i < length
        ensures rep[i] == rep[i - k]
      {
        ModShift(i, k);
      }
    }
  }

  /** Placeholder "AB" over a five-byte hit gives "ABABA". */
  lemma PlaceholderABABA()
    ensures Replacement(Placeholder, [65, 66], 5) == [65, 66, 65, 66, 65]
  {
    var rep := Replacement(Placeholder, [65, 66], 5);
    assert rep[0] == 65 && rep[1] == 66 && rep[2] == 65 && rep[3] == 66 && rep[4] == 65;
  }

  /** Builds the replacement for one hit: filled with zeros in null mode, filled byte by
      byte from the placeholder otherwise. */
  method BuildReplacement(length: nat, mode: Mode, placeholderBytes: seq<byte>) returns (replacement: seq<byte>)
    ensures replacement == Replacement(mode, placeholderBytes, length)
  {
    var buffer: array<byte>;
    if mode == NullBytes {
      buffer := new byte[length](_ => 0);
    } else {
      buffer := new byte[length];
      for i := 0 to length
        invariant forall k :: 0 <= k < i ==> buffer[k] == FillByte(mode, placeholderBytes, k)
      {
        buffer[i] := if |placeholderBytes| == 0 then 0 else placeholderBytes[i % |placeholderBytes|];
      }
    }
    replacement := buffer[..];
  }

  /** The buffer with the hit's range overwritten by its replacement. */
  function Overwrite(buf: seq<byte>, m: Match, mode: Mode, placeholderBytes: seq<byte>): (r: seq<byte>)
    requires InBounds(m, |buf|)
    ensures |r| == |buf|
  {
    buf[..m.offset] + Replacement(mode, placeholderBytes, m.length) + buf[m.offset + m.length..]
  }

  lemma OverwriteAt(buf: seq<byte>, m: Match, mode: Mode, placeholderBytes: seq<byte>, j: nat)
    requires InBounds(m, |buf|) && j < |buf|
    ensures Overwrite(buf, m, mode, placeholderBytes)[j]
         == if Covers(m, j) then FillByte(mode, placeholderBytes, j - m.offset) else buf[j]
  {
  }

  predicate AllInBounds(ms: seq<TaggedMatch>, n: nat) {
    forall k :: 0 <= k < |ms| ==> InBounds(ms[k].hit, n)
  }

  /** The buffer after overwriting every hit of ms, first to last. */
  function Patch(buf: seq<byte>, ms: seq<TaggedMatch>, mode: Mode, placeholderBytes: seq<byte>): (r: seq<byte>)
    requires AllInBounds(ms, |buf|)
    ensures |r| == |buf|
    decreases |ms|
  {
    if |ms| == 0 then buf
    else Overwrite(Patch(buf, ms[..|ms| - 1], mode, placeholderBytes), ms[|ms| - 1].hit, mode, placeholderBytes)
  }

  /** Each byte ends with the value written by the last hit covering it (w), or keeps
      its original value when no hit covers it (w == -1). */
  lemma {:induction false} LastWriter(buf: seq<byte>, ms: seq<TaggedMatch>, mode: Mode, placeholderBytes: seq<byte>, j: nat)
    returns (w: int)
    requires AllInBounds(ms, |buf|) && j < |buf|
    decreases |ms|
    ensures -1 <= w < |ms|
    ensures forall l :: w < l < |ms| ==> !Covers(ms[l].hit, j)
    ensures w == -1 ==> Patch(buf, ms, mode, placeholderBytes)[j] == buf[j]
    ensures 0 <= w ==> Covers(ms[w].hit, j)
    ensures 0 <= w ==> Patch(buf, ms, mode, placeholderBytes)[j] == FillByte(mode, placeholderBytes, j - ms[w].hit.offset)
  {
    if |ms| == 0 {
      w := -1;
    } else {
      var last := ms[|ms| - 1].hit;
      var init := ms[..|ms| - 1];
      assert AllInBounds(init, |buf|) by {
        forall k | 0 <= k < |init| ensures InBounds(init[k].hit, |buf|) {
          assert init[k] == ms[k];
        }
      }
      var prev := Patch(buf, init, mode, placeholderBytes);
      assert Patch(buf, ms, mode, placeholderBytes) == Overwrite(prev, last, mode, placeholderBytes);
      OverwriteAt(prev, last, mode, placeholderBytes, j);
      if Covers(last, j) {
        w := |ms| - 1;
      } else {
        w := LastWriter(buf, init, mode, placeholderBytes, j);
        forall l | w < l < |ms|
          ensures !Covers(ms[l].hit, j)
        {
          if l < |ms| - 1 {
            assert ms[l] == init[l];
          }
        }
        if 0 <= w {
          assert ms[w] == init[w];
        }
      }
    }
  }

  /** Bytes outside every hit's range are unchanged. */
  lemma PatchOutside(buf: seq<byte>, ms: seq<TaggedMatch>, mode: Mode, placeholderBytes: seq<byte>, j: nat)
    requires AllInBounds(ms, |buf|) && j < |buf|
    requires forall k :: 0 <= k < |ms| ==> !Covers(ms[k].hit, j)
    ensures Patch(buf, ms, mode, placeholderBytes)[j] == buf[j]
  {
    var w := LastWriter(buf, ms, mode, placeholderBytes, j);
  }

  /** With hits in descending offset order, a byte covered by several hits ends with the
      value written by a lowest-offset hit covering it; hits tying at that offset write
      the same value there, since the value depends only on the distance to the offset. */
  lemma LowestOffsetWins(buf: seq<byte>, ms: seq<TaggedMatch>, mode: Mode, placeholderBytes: seq<byte>, j: nat, k: nat)
    requires AllInBounds(ms, |buf|) && j < |buf| && SortedDesc(ms)
    requires k < |ms| && Covers(ms[k].hit, j)
    requires forall l :: 0 <= l < |ms| && Covers(ms[l].hit, j) ==> ms[k].hit.offset <= ms[l].hit.offset
    ensures Patch(buf, ms, mode, placeholderBytes)[j] == FillByte(mode, placeholderBytes, j - ms[k].hit.offset)
  {
    var w := LastWriter(buf, ms, mode, placeholderBytes, j);
    assert k <= w;
  }

  /** In null mode every byte covered by some hit becomes zero. */
  lemma NullModeZeroes(buf: seq<byte>, ms: seq<TaggedMatch>, placeholderBytes: seq<byte>, j: nat, k: nat)
    requires AllInBounds(ms, |buf|) && j < |buf|
    requires k < |ms| && Covers(ms[k].hit, j)
    ensures Patch(buf, ms, NullBytes, placeholderBytes)[j] == 0
  {
    var w := LastWriter(buf, ms, NullBytes, placeholderBytes, j);
    assert k <= w;
  }

  // ---------------------------------------------------------------------------------
  // The merged hit list.

  /** Every merged hit carries the pattern that produced it, and every hit of every
      pattern is in the merged list. */
  lemma {:induction false} AllMatchesTagged(data: seq<byte>, patterns: seq<Pattern>, ignoreCase: bool)
    ensures forall t :: t in AllMatches(data, patterns, ignoreCase) ==>
      exists p :: p in patterns && t.pattern == p.text && t.hit in PatternMatches(data, p, ignoreCase)
    ensures forall p, m :: p in patterns && m in PatternMatches(data, p, ignoreCase) ==>
      TaggedMatch(m, p.text) in AllMatches(data, patterns, ignoreCase)
  {
    if |patterns| > 0 {
      var p := patterns[|patterns| - 1];
      var init := patterns[..|patterns| - 1];
      AllMatchesTagged(data, init, ignoreCase);
      assert patterns == init + [p];
      var tagged := Tag(PatternMatches(data, p, ignoreCase), p.text);
      forall m | m in PatternMatches(data, p, ignoreCase)
        ensures TaggedMatch(m, p.text) in tagged
      {
        var k :| 0 <= k < |PatternMatches(data, p, ignoreCase)| && PatternMatches(data, p, ignoreCase)[k] == m;
        assert tagged[k] == TaggedMatch(m, p.text);
      }
    }
  }

  /** The number of merged hits is the total over the patterns, duplicates included. */
  lemma {:induction false} AllMatchesCount(data: seq<byte>, patterns: seq<Pattern>, ignoreCase: bool)
    ensures |AllMatches(data, patterns, ignoreCase)| == TotalHits(data, patterns, ignoreCase)
  {
    if |patterns| > 0 {
      AllMatchesCount(data, patterns[..|patterns| - 1], ignoreCase);
    }
  }

  function TotalHits(data: seq<byte>, patterns: seq<Pattern>, ignoreCase: bool): nat {
    if |patterns| == 0 then 0
    else TotalHits(data, patterns[..|patterns| - 1], ignoreCase) + |PatternMatches(data, patterns[|patterns| - 1], ignoreCase)|
  }

  /** Every merged hit lies inside the buffer. */
  lemma {:induction false} AllMatchesInBounds(data: seq<byte>, patterns: seq<Pattern>, ignoreCase: bool)
    ensures AllInBounds(AllMatches(data, patterns, ignoreCase), |data|)
    ensures AllInBounds(SortDesc(AllMatches(data, patterns, ignoreCase)), |data|)
  {
    var all := AllMatches(data, patterns, ignoreCase);
    AllMatchesTagged(data, patterns, ignoreCase);
    forall p | p in patterns {
      PatternMatchesInBounds(data, p, ignoreCase);
    }
    forall k | 0 <= k < |all|
      ensures InBounds(all[k].hit, |data|)
    {
      assert all[k] in all;
    }
    var sorted := SortDesc(all);
    SortDescSortedPermutation(all);
    forall k | 0 <= k < |sorted|
      ensures InBounds(sorted[k].hit, |data|)
    {
      assert sorted[k] in multiset(all);
      var i :| 0 <= i < |all| && all[i] == sorted[k];
    }
  }

  function Report(s: seq<TaggedMatch>): (r: seq<Reported>)
    ensures |r| == |s|
  {
    seq(|s|, k requires 0 <= k < |s| => Reported(s[k].hit.text, s[k].hit.offset))
  }

  /** The hits of every pattern, concatenated in pattern order and tagged. */
  method CollectMatches(data: seq<byte>, patterns: seq<Pattern>, ignoreCase: bool) returns (allMatches: seq<TaggedMatch>)
    ensures allMatches == AllMatches(data, patterns, ignoreCase)
  {
    allMatches := [];
    for k := 0 to |patterns|
      invariant allMatches == AllMatches(data, patterns[..k], ignoreCase)
    {
      var matches := FindMatches(data, patterns[k], ignoreCase);
      assert patterns[..k + 1][..k] == patterns[..k];
      allMatches := allMatches + Tag(matches, patterns[k].text);
    }
    assert patterns[..|patterns|] == patterns;
  }

  /** Writes one replacement over the hit's range (Uint8Array.set). */
  method WriteReplacement(a: array<byte>, m: Match, replacement: seq<byte>, ghost mode: Mode, ghost placeholderBytes: seq<byte>)
    requires InBounds(m, a.Length)
    requires replacement == Replacement(mode, placeholderBytes, m.length)
    modifies a
    ensures a[..] == Overwrite(old(a[..]), m, mode, placeholderBytes)
  {
    ghost var before := a[..];
    forall i | 0 <= i < |replacement| {
      a[m.offset + i] := replacement[i];
    }
    forall j | 0 <= j < a.Length
      ensures a[..][j] == Overwrite(before, m, mode, placeholderBytes)[j]
    {
      OverwriteAt(before, m, mode, placeholderBytes, j);
    }
  }

  /** Overwrites the hits in list order. */
  method ApplyPatches(a: array<byte>, ms: seq<TaggedMatch>, mode: Mode, placeholderBytes: seq<byte>)
    requires AllInBounds(ms, a.Length)
    modifies a
    ensures a[..] == Patch(old(a[..]), ms, mode, placeholderBytes)
  {
    ghost var original := a[..];
    for k := 0 to |ms|
      invariant a[..] == Patch(original, ms[..k], mode, placeholderBytes)
    {
      var m := ms[k].hit;
      var replacement := BuildReplacement(m.length, mode, placeholderBytes);
      WriteReplacement(a, m, replacement, mode, placeholderBytes);
      assert ms[..k + 1][..k] == ms[..k];
    }
    assert ms[..|ms|] == ms;
  }

  /** Finds the hits of every pattern, sorts them by descending offset, and, when there
      is at least one, overwrites them in that order in a fresh copy of the buffer. The
      input buffer is only read. */
  method ProcessFile(data: array<byte>, patterns: seq<Pattern>, mode: Mode, placeholderBytes: seq<byte>, ignoreCase: bool)
    returns (result: PatchResult, output: Option<array<byte>>)
    requires forall k :: 0 <= k < |patterns| ==> |patterns[k].text| > 0
    ensures unchanged(data)
    ensures AllInBounds(SortDesc(AllMatches(data[..], patterns, ignoreCase)), data.Length)
    ensures result.patchCount == |AllMatches(data[..], patterns, ignoreCase)|
    ensures result.matches == Report(SortDesc(AllMatches(data[..], patterns, ignoreCase)))
    ensures output.None? <==> result.patchCount == 0
    ensures output.Some? ==> fresh(output.value)
    ensures output.Some? ==> output.value[..] == Patch(data[..], SortDesc(AllMatches(data[..], patterns, ignoreCase)), mode, placeholderBytes)
  {
    var bytes := data[..];
    var allMatches := CollectMatches(bytes, patterns, ignoreCase);
    AllMatchesInBounds(bytes, patterns, ignoreCase);
    assert AllInBounds(SortDesc(allMatches), data.Length);
    SortDescSortedPermutation(allMatches);
    allMatches := SortDesc(allMatches);

    if |allMatches| == 0 {
      return PatchResult(0, []), None;
    }

    var modifiedData := new byte[data.Length];
    forall i | 0 <= i < data.Length {
      modifiedData[i] := data[i];
    }
    assert modifiedData[..] == bytes;
    ApplyPatches(modifiedData, allMatches, mode, placeholderBytes);
    assert data[..] == bytes;
    result := PatchResult(|allMatches|, Report(allMatches));
    output := Some(modifiedData);
  }
}
