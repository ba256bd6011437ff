/** Extraction of maximal printable-ASCII runs from a buffer. */
module AsciiStrings {
  import opened Bytes

  /** The number of consecutive printable bytes starting at position i. */
  function PrintableSpan(data: seq<byte>, i: nat): (n: nat)
    requires i <= |data|
    decreases |data| - i
    ensures i + n <= |data|
    ensures forall j :: i <= j < i + n ==> Printable(data[j])
    ensures i + n == |data| || !Printable(data[i + n])
  {
    if i == |data| || !Printable(data[i]) then 0 else 1 + PrintableSpan(data, i + 1)
  }

  /** The runs of data[i..], each with its absolute offset. */
  function RunsFrom(data: seq<byte>, i: nat): seq<Run>
    requires i <= |data|
    decreases |data| - i
  {
    if i == |data| then []
    else if !Printable(data[i]) then RunsFrom(data, i + 1)
    else
      var n := PrintableSpan(data, i);
      [Run(i, data[i..i + n])] + RunsFrom(data, i + n)
  }

  /** All printable runs of the buffer, in order. */
  function AsciiRuns(data: seq<byte>): seq<Run> {
    RunsFrom(data, 0)
  }

  /** r is a maximal printable run of data: non-empty, inside the buffer, made of the
      buffer's own bytes, all printable, with no printable byte just before or just after. */
  predicate IsMaximalRun(data: seq<byte>, r: Run) {
    && |r.text| > 0
    && End(r) <= |data|
    && data[r.offset..End(r)] == r.text
    && (forall j :: r.offset <= j < End(r) ==> Printable(data[j]))
    && (r.offset == 0 || !Printable(data[r.offset - 1]))
    && (End(r) == |data| || !Printable(data[End(r)]))
  }

  /** A printable byte whose predecessor is printable, where no run may start. */
  predicate InsideRun(data: seq<byte>, i: nat) {
    0 < i < |data| && Printable(data[i]) && Printable(data[i - 1])
  }

  lemma {:induction false} SpanEnds(data: seq<byte>, start: nat, stop: nat)
    requires start <= stop <= |data|
    requires forall j :: start <= j < stop ==> Printable(data[j])
    requires stop == |data| || !Printable(data[stop])
    ensures PrintableSpan(data, start) == stop - start
    decreases stop - start
  {
    if start < stop {
      SpanEnds(data, start + 1, stop);
    }
  }

  /** Runs in strictly increasing order, each ending before the next begins. */
  predicate Separated(rs: seq<Run>) {
    forall k, l :: 0 <= k < l < |rs| ==> End(rs[k]) < rs[l].offset
  }

  /** Every run is a maximal run of data lying at or after position from. */
  predicate AllMaximal(data: seq<byte>, rs: seq<Run>, from: nat) {
    forall k :: 0 <= k < |rs| ==> IsMaximalRun(data, rs[k]) && from <= rs[k].offset
  }

  /** Byte position j lies in run r. */
  predicate InRun(r: Run, j: int) {
    r.offset <= j < End(r)
  }

  /** Putting a maximal run in front of maximal, separated runs that start at or after its
      end keeps them maximal and separated. */
  lemma ConsMaximal(data: seq<byte>, head: Run, rest: seq<Run>, from: nat)
    requires IsMaximalRun(data, head) && from <= head.offset
    requires AllMaximal(data, rest, End(head)) && Separated(rest)
    ensures AllMaximal(data, [head] + rest, from) && Separated([head] + rest)
  {
    var rs := [head] + rest;
    forall l | 0 <= l < |rest|
      ensures End(head) < rest[l].offset
    {
      assert IsMaximalRun(data, rest[l]);
      assert Printable(data[rest[l].offset]);
    }
    forall k | 0 <= k < |rs|
      ensures IsMaximalRun(data, rs[k]) && from <= rs[k].offset
    {
      if k > 0 {
        assert rs[k] == rest[k - 1];
      }
    }
    forall k, l | 0 <= k < l < |rs|
      ensures End(rs[k]) < rs[l].offset
    {
      assert rs[l] == rest[l - 1];
      if k > 0 {
        assert rs[k] == rest[k - 1];
      }
    }
  }

  /** The run starting at a printable byte with no printable predecessor is maximal, and
      no run is in progress just after it. */
  lemma HeadMaximal(data: seq<byte>, i: nat)
    requires i < |data| && Printable(data[i]) && !InsideRun(data, i)
    ensures var n := PrintableSpan(data, i);
      && IsMaximalRun(data, Run(i, data[i..i + n]))
      && !InsideRun(data, i + n)
  {
    var n := PrintableSpan(data, i);
    assert n > 0;
  }

  /** A non-printable byte starts no run. */
  lemma SkipByte(data: seq<byte>, i: nat)
    requires i < |data| && !Printable(data[i])
    ensures RunsFrom(data, i) == RunsFrom(data, i + 1)
  {
  }

  /** Skipping a non-printable byte keeps the runs found after it maximal and separated. */
  lemma SkipStep(data: seq<byte>, i: nat)
    requires i < |data| && !Printable(data[i])
    requires AllMaximal(data, RunsFrom(data, i + 1), i + 1) && Separated(RunsFrom(data, i + 1))
    ensures AllMaximal(data, RunsFrom(data, i), i) && Separated(RunsFrom(data, i))
  {
    SkipByte(data, i);
  }

  /** From a printable byte, the first run found is the printable span starting there. */
  lemma HeadRuns(data: seq<byte>, i: nat)
    requires i < |data| && Printable(data[i])
    ensures RunsFrom(data, i)
         == [Run(i, data[i..i + PrintableSpan(data, i)])] + RunsFrom(data, i + PrintableSpan(data, i))
  {
  }

  /** The run starting at i, put in front of the maximal, separated runs found after it. */
  lemma HeadStep(data: seq<byte>, i: nat)
    requires i < |data| && Printable(data[i])
    requires IsMaximalRun(data, Run(i, data[i..i + PrintableSpan(data, i)]))
    requires AllMaximal(data, RunsFrom(data, i + PrintableSpan(data, i)), i + PrintableSpan(data, i))
    requires Separated(RunsFrom(data, i + PrintableSpan(data, i)))
    ensures AllMaximal(data, RunsFrom(data, i), i) && Separated(RunsFrom(data, i))
  {
    var n := PrintableSpan(data, i);
    var head := Run(i, data[i..i + n]);
    var rest := RunsFrom(data, i + n);
    HeadRuns(data, i);
    assert End(head) == i + n;
    ConsMaximal(data, head, rest, i);
  }

  /** Every run found from a position where no run is in progress is maximal, lies at or
      after that position, and runs come in increasing order, separated by at least one
      non-printable byte. */
  lemma {:induction false} RunsFromMaximal(data: seq<byte>, i: nat)
    requires i <= |data| && !InsideRun(data, i)
    decreases |data| - i
    ensures AllMaximal(data, RunsFrom(data, i), i)
    ensures Separated(RunsFrom(data, i))
  {
    if i < |data| {
      if !Printable(data[i]) {
        RunsFromMaximal(data, i + 1);
        SkipStep(data, i);
      } else {
        HeadMaximal(data, i);
        RunsFromMaximal(data, i + PrintableSpan(data, i));
        HeadStep(data, i);
      }
    }
  }

  /** Every printable byte at or after i lies in a run found from i. */
  lemma {:induction false} RunsFromCover(data: seq<byte>, i: nat, j: nat) returns (k: nat)
    requires i <= j < |data| && Printable(data[j])
    decreases |data| - i
    ensures k < |RunsFrom(data, i)| && InRun(RunsFrom(data, i)[k], j)
  {
    if !Printable(data[i]) {
      k := RunsFromCover(data, i + 1, j);
    } else {
      var n := PrintableSpan(data, i);
      if j < i + n {
        k := 0;
      } else {
        var k' := RunsFromCover(data, i + n, j);
        k := k' + 1;
      }
    }
  }

  /** The runs of a buffer are maximal, increasing and pairwise separated, and every
      printable byte of the buffer lies in exactly one of them (a trailing run that
      reaches the end of the buffer included). */
  lemma AsciiRunsSplit(data: seq<byte>)
    ensures AllMaximal(data, AsciiRuns(data), 0)
    ensures Separated(AsciiRuns(data))
    ensures forall j :: 0 <= j < |data| && Printable(data[j]) ==>
      exists k :: 0 <= k < |AsciiRuns(data)| && InRun(AsciiRuns(data)[k], j)
    ensures forall j, k, l ::
              0 <= k < |AsciiRuns(data)| && 0 <= l < |AsciiRuns(data)|
              && InRun(AsciiRuns(data)[k], j) && InRun(AsciiRuns(data)[l], j)
              ==> k == l
  {
    var rs := AsciiRuns(data);
    RunsFromMaximal(data, 0);
    forall j | 0 <= j < |data| && Printable(data[j])
      ensures exists k :: 0 <= k < |rs| && InRun(rs[k], j)
    {
      var k := RunsFromCover(data, 0, j);
    }
  }

  /** The bytes covered by runs are exactly the printable bytes. */
  lemma RunBytesPrintable(data: seq<byte>, j: nat)
    requires j < |data|
    ensures Printable(data[j]) <==> exists k :: 0 <= k < |AsciiRuns(data)| && InRun(AsciiRuns(data)[k], j)
  {
    AsciiRunsSplit(data);
  }

  /** A printable stretch [start, stop) followed by a non-printable byte or the end of
      the buffer is the first run found from start. */
  lemma RunCloses(data: seq<byte>, start: nat, stop: nat)
    requires start < stop <= |data|
    requires forall j :: start <= j < stop ==> Printable(data[j])
    requires stop == |data| || !Printable(data[stop])
    ensures RunsFrom(data, start) == [Run(start, data[start..stop])] + RunsFrom(data, stop)
  {
    SpanEnds(data, start, stop);
  }

  lemma SliceExtend(data: seq<byte>, a: nat, b: nat)
    requires a <= b < |data|
    ensures data[a..b + 1] == data[a..b] + [data[b]]
  {
  }

  /** Walks the buffer once, growing the current run on printable bytes and closing it
      at the first non-printable byte; a run still open at the end is closed too. */
  method ExtractAsciiStrings(data: seq<byte>) returns (strings: seq<Run>)
    ensures strings == AsciiRuns(data)
  {
    strings := [];
    var currentString: seq<byte> := [];
    var currentStart: nat := 0;
    for i := 0 to |data|
      invariant currentString == [] ==>
        (i == 0 || !Printable(data[i - 1])) && strings + RunsFrom(data, i) == AsciiRuns(data)
      invariant currentString != [] ==>
        && currentStart < i
        && currentString == data[currentStart..i]
        && (forall j :: currentStart <= j < i ==> Printable(data[j]))
        && (currentStart == 0 || !Printable(data[currentStart - 1]))
        && strings + RunsFrom(data, currentStart) == AsciiRuns(data)
    {
      var b := data[i];
      if 32 <= b <= 126 {
        if currentString == [] {
          currentStart := i;
        }
        SliceExtend(data, currentStart, i);
        currentString := currentString + [b];
      } else {
        assert RunsFrom(data, i) == RunsFrom(data, i + 1);
        if |currentString| > 0 {
          RunCloses(data, currentStart, i);
          assert strings + RunsFrom(data, currentStart)
              == (strings + [Run(currentStart, currentString)]) + RunsFrom(data, i);
          strings := strings + [Run(currentStart, currentString)];
          currentString := [];
        }
      }
    }
    if |currentString| > 0 {
      RunCloses(data, currentStart, |data|);
      strings := strings + [Run(currentStart, currentString)];
    }
  }
}
