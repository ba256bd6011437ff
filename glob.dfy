/** Anchored glob matching: the meaning of the regular expression that the wildcard
    translation builds ('^' + escaped pattern with '*' as '.*' and '?' as '.' + '$'),
    applied to text without line terminators. */
module Glob {
  import opened Bytes

  /** ASCII case folding on code points: 'A'..'Z' become 'a'..'z', everything else stays. */
  function FoldCode(x: int): int {
    if 65 <= x <= 90 then x + 32 else x
  }

  function FoldChar(c: char): char {
    FoldCode(c as int) as char
  }

  function FoldByte(b: byte): byte {
    FoldCode(b as int) as byte
  }

  function FoldChars(p: seq<char>): (r: seq<char>)
    ensures |r| == |p|
  {
    if |p| == 0 then [] else [FoldChar(p[0])] + FoldChars(p[1..])
  }

  function FoldBytes(t: seq<byte>): (r: seq<byte>)
    ensures |r| == |t|
  {
    if |t| == 0 then [] else [FoldByte(t[0])] + FoldBytes(t[1..])
  }

  /** A literal pattern character against one text byte; with the case flag both sides
      are folded, as the 'i' flag does for ASCII. */
  predicate CharMatches(c: char, b: byte, ignoreCase: bool) {
    if ignoreCase then FoldCode(c as int) == FoldCode(b as int) else c as int == b as int
  }

  predicate IsWildcard(c: char) {
    c == '*' || c == '?'
  }

  /** The whole text t matches the pattern p: '*' matches any sequence, '?' exactly one
      character, every other character itself (regex metacharacters are escaped, so
      they are literal too). */
  function GlobMatch(p: seq<char>, t: seq<byte>, ignoreCase: bool): (matched: bool)
    decreases |p| + |t|
    ensures matched && '*' !in p ==> |t| == |p|
  {
    if |p| == 0 then |t| == 0
    else if p[0] == '*' then
      GlobMatch(p[1..], t, ignoreCase) || (|t| > 0 && GlobMatch(p, t[1..], ignoreCase))
    else
      |t| > 0 && (p[0] == '?' || CharMatches(p[0], t[0], ignoreCase)) && GlobMatch(p[1..], t[1..], ignoreCase)
  }

  /** A lone '*' matches every text. */
  lemma {:induction false} StarMatchesAll(t: seq<byte>, ignoreCase: bool)
    ensures GlobMatch(['*'], t, ignoreCase)
    decreases |t|
  {
    if |t| > 0 {
      StarMatchesAll(t[1..], ignoreCase);
    } else {
      assert ['*'][1..] == [];
    }
  }

  /** A lone '?' ('.') matches exactly the one-byte texts. */
  lemma QuestionMatchesOne(t: seq<byte>, ignoreCase: bool)
    ensures GlobMatch(['?'], t, ignoreCase) <==> |t| == 1
  {
    if |t| > 0 {
      assert ['?'][1..] == [];
    }
  }

  /** A pattern without wildcards matches exactly the texts of its own length that agree
      with it character by character. */
  lemma {:induction false} LiteralMatch(p: seq<char>, t: seq<byte>, ignoreCase: bool)
    requires forall i :: 0 <= i < |p| ==> !IsWildcard(p[i])
    ensures GlobMatch(p, t, ignoreCase)
        <==> |t| == |p| && forall i :: 0 <= i < |p| ==> CharMatches(p[i], t[i], ignoreCase)
    decreases |p|
  {
    if |p| > 0 && |t| > 0 {
      LiteralMatch(p[1..], t[1..], ignoreCase);
      if |t| == |p| && forall i :: 0 <= i < |p| ==> CharMatches(p[i], t[i], ignoreCase) {
        assert forall i :: 0 <= i < |p| - 1 ==> CharMatches(p[1..][i], t[1..][i], ignoreCase) by {
          forall i | 0 <= i < |p| - 1
            ensures CharMatches(p[1..][i], t[1..][i], ignoreCase)
          {
            assert CharMatches(p[i + 1], t[i + 1], ignoreCase);
          }
        }
      }
      if GlobMatch(p, t, ignoreCase) {
        forall i | 0 <= i < |p|
          ensures CharMatches(p[i], t[i], ignoreCase)
        {
          if i > 0 {
            assert CharMatches(p[1..][i - 1], t[1..][i - 1], ignoreCase);
          }
        }
      }
    }
  }

  /** Matching a concatenation splits the text: one direction, producing the split point. */
  lemma {:induction false} ConcatSplit(p1: seq<char>, p2: seq<char>, t: seq<byte>, ignoreCase: bool) returns (k: nat)
    requires GlobMatch(p1 + p2, t, ignoreCase)
    ensures k <= |t| && GlobMatch(p1, t[..k], ignoreCase) && GlobMatch(p2, t[k..], ignoreCase)
    decreases |p1| + |t|
  {
    if |p1| == 0 {
      assert p1 + p2 == p2;
      k := 0;
      assert t[k..] == t;
    } else {
      assert (p1 + p2)[0] == p1[0];
      assert (p1 + p2)[1..] == p1[1..] + p2;
      if p1[0] == '*' {
        if GlobMatch(p1[1..] + p2, t, ignoreCase) {
          k := ConcatSplit(p1[1..], p2, t, ignoreCase);
        } else {
          var k' := ConcatSplit(p1, p2, t[1..], ignoreCase);
          k := k' + 1;
          assert t[..k][1..] == t[1..][..k'];
          assert t[k..] == t[1..][k'..];
        }
      } else {
        var k' := ConcatSplit(p1[1..], p2, t[1..], ignoreCase);
        k := k' + 1;
        assert t[..k][1..] == t[1..][..k'];
        assert t[k..] == t[1..][k'..];
      }
    }
  }

  /** Matching a concatenation splits the text: the other direction. */
  lemma {:induction false} ConcatJoin(p1: seq<char>, p2: seq<char>, t: seq<byte>, k: nat, ignoreCase: bool)
    requires k <= |t| && GlobMatch(p1, t[..k], ignoreCase) && GlobMatch(p2, t[k..], ignoreCase)
    ensures GlobMatch(p1 + p2, t, ignoreCase)
    decreases |p1| + |t|
  {
    if |p1| == 0 {
      assert p1 + p2 == p2;
      assert t[k..] == t;
    } else {
      assert (p1 + p2)[0] == p1[0];
      assert (p1 + p2)[1..] == p1[1..] + p2;
      if p1[0] == '*' {
        if GlobMatch(p1[1..], t[..k], ignoreCase) {
          ConcatJoin(p1[1..], p2, t, k, ignoreCase);
        } else {
          assert t[..k][1..] == t[1..][..k - 1];
          assert t[k..] == t[1..][k - 1..];
          ConcatJoin(p1, p2, t[1..], k - 1, ignoreCase);
        }
      } else {
        assert t[..k][1..] == t[1..][..k - 1];
        assert t[k..] == t[1..][k - 1..];
        ConcatJoin(p1[1..], p2, t[1..], k - 1, ignoreCase);
      }
    }
  }

  /** The language of a concatenated pattern is the concatenation of the languages:
      together with the single-element cases (StarMatchesAll, QuestionMatchesOne and
      LiteralMatch) this is the regular-expression meaning of the anchored translation. */
  lemma GlobConcat(p1: seq<char>, p2: seq<char>, t: seq<byte>, ignoreCase: bool)
    ensures GlobMatch(p1 + p2, t, ignoreCase)
        <==> exists k :: 0 <= k <= |t| && GlobMatch(p1, t[..k], ignoreCase) && GlobMatch(p2, t[k..], ignoreCase)
  {
    if GlobMatch(p1 + p2, t, ignoreCase) {
      var k := ConcatSplit(p1, p2, t, ignoreCase);
    }
    if exists k :: 0 <= k <= |t| && GlobMatch(p1, t[..k], ignoreCase) && GlobMatch(p2, t[k..], ignoreCase) {
      var k :| 0 <= k <= |t| && GlobMatch(p1, t[..k], ignoreCase) && GlobMatch(p2, t[k..], ignoreCase);
      ConcatJoin(p1, p2, t, k, ignoreCase);
    }
  }

  /** Case-insensitive matching is case-sensitive matching of both sides ASCII-folded. */
  lemma {:induction false} IgnoreCaseIsFolded(p: seq<char>, t: seq<byte>)
    ensures GlobMatch(p, t, true) == GlobMatch(FoldChars(p), FoldBytes(t), false)
    decreases |p| + |t|
  {
    var fp, ft := FoldChars(p), FoldBytes(t);
    if |p| > 0 {
      assert fp[0] == FoldChar(p[0]) && fp[1..] == FoldChars(p[1..]);
      assert (fp[0] == '*') == (p[0] == '*') && (fp[0] == '?') == (p[0] == '?');
      IgnoreCaseIsFolded(p[1..], t);
      if |t| > 0 {
        assert ft[0] == FoldByte(t[0]) && ft[1..] == FoldBytes(t[1..]);
        assert CharMatches(p[0], t[0], true) == CharMatches(fp[0], ft[0], false);
        IgnoreCaseIsFolded(p, t[1..]);
        IgnoreCaseIsFolded(p[1..], t[1..]);
      }
    }
  }

  /** A case-sensitive match is also a case-insensitive one. */
  lemma {:induction false} SensitiveImpliesInsensitive(p: seq<char>, t: seq<byte>)
    requires GlobMatch(p, t, false)
    ensures GlobMatch(p, t, true)
    decreases |p| + |t|
  {
    if |p| > 0 {
      if p[0] == '*' {
        if GlobMatch(p[1..], t, false) {
          SensitiveImpliesInsensitive(p[1..], t);
        } else {
          SensitiveImpliesInsensitive(p, t[1..]);
        }
      } else {
        SensitiveImpliesInsensitive(p[1..], t[1..]);
      }
    }
  }

  /** Anchoring: "abc*" matches all of "abcdef" but not "xabc". */
  lemma AnchoredExamples()
    ensures GlobMatch("abc*", [97, 98, 99, 100, 101, 102], false)
    ensures !GlobMatch("abc*", [120, 97, 98, 99], false)
  {
    var t: seq<byte> := [97, 98, 99, 100, 101, 102];
    StarMatchesAll(t[3..], false);
    LiteralMatch("abc", t[..3], false);
    assert "abc*" == "abc" + "*";
    ConcatJoin("abc", "*", t, 3, false);
  }
}
