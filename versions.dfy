/** A stand-in for the semantic-version library the index uses
    (github.com/hashicorp/go-version, whose source is not part of this model).

    A version string is modelled as one or more decimal numbers separated by
    dots ("2.3.1"); anything else fails to parse. Two versions compare segment
    by segment, most significant first, the shorter one padded with zeros, so
    that "1.2" and "1.2.0" are equal, as in the library. Pre-release and
    metadata suffixes and the optional leading "v" are not modelled. */
module Versions {

  datatype Option<T> = None | Some(value: T)

  /** A parsed version: its numeric segments, most significant first. */
  datatype Version = Version(segments: seq<nat>)

  // ---------------------------------------------------------------------
  // Decimal digits

  predicate IsDigit(c: char) {
    '0' <= c <= '9'
  }

  predicate AllDigits(s: string) {
    forall i :: 0 <= i < |s| ==> IsDigit(s[i])
  }

  function DigitValue(c: char): (d: nat)
    requires IsDigit(c)
    ensures d < 10
  {
    c as int - '0' as int
  }

  function DigitChar(d: nat): (c: char)
    requires d < 10
    ensures IsDigit(c) && DigitValue(c) == d
  {
    ('0' as int + d) as char
  }

  /** The value of a string of decimal digits, most significant first. */
  function DigitsValue(s: string): nat
    requires AllDigits(s)
  {
    if s == [] then 0 else 10 * DigitsValue(s[..|s| - 1]) + DigitValue(s[|s| - 1])
  }

  /** The canonical decimal writing of n: no leading zeros. */
  function NatToString(n: nat): (s: string)
    ensures |s| > 0 && AllDigits(s)
  {
    if n < 10 then [DigitChar(n)] else NatToString(n / 10) + [DigitChar(n % 10)]
  }

  lemma {:induction false} DigitsValueOfNatToString(n: nat)
    ensures DigitsValue(NatToString(n)) == n
  {
    if n >= 10 {
      var s := NatToString(n / 10);
      var t := s + [DigitChar(n % 10)];
      assert t[..|t| - 1] == s;
      DigitsValueOfNatToString(n / 10);
    }
  }

  /** The length of the longest prefix of s made of decimal digits. */
  function DigitRun(s: string): (n: nat)
    ensures n <= |s|
    ensures AllDigits(s[..n])
    ensures n < |s| ==> !IsDigit(s[n])
  {
    if s == [] || !IsDigit(s[0]) then 0
    else
      var n := 1 + DigitRun(s[1..]);
      assert s[..n] == [s[0]] + s[1..][..n - 1];
      n
  }

  lemma {:induction false} DigitRunAppend(d: string, t: string)
    requires AllDigits(d)
    ensures DigitRun(d + t) == |d| + DigitRun(t)
  {
    if d != [] {
      assert (d + t)[1..] == d[1..] + t;
      DigitRunAppend(d[1..], t);
    } else {
      assert d + t == t;
    }
  }

  // ---------------------------------------------------------------------
  // Parsing and writing

  /** Reference grammar of a version string: digits and dots only, starting
      and ending with a digit, and a digit after every dot (so no segment is
      empty). */
  ghost predicate DottedDecimal(s: string) {
    && |s| > 0
    && (forall i :: 0 <= i < |s| ==> IsDigit(s[i]) || s[i] == '.')
    && IsDigit(s[0])
    && IsDigit(s[|s| - 1])
    && (forall i :: 0 <= i < |s| - 1 && s[i] == '.' ==> IsDigit(s[i + 1]))
  }

  /** Past a leading run of k digits and a dot, s is a dotted decimal exactly
      when the rest is. */
  lemma DottedDecimalShift(s: string, k: nat)
    requires 0 < k < |s| && AllDigits(s[..k]) && s[k] == '.'
    ensures DottedDecimal(s) <==> DottedDecimal(s[k + 1..])
  {
    var t := s[k + 1..];
    forall i | 0 <= i < k ensures IsDigit(s[i]) {
      assert s[i] == s[..k][i];
    }
    if DottedDecimal(s) {
      assert IsDigit(s[k + 1]);
      forall i | 0 <= i < |t| - 1 && t[i] == '.' ensures IsDigit(t[i + 1]) {
        assert t[i] == s[k + 1 + i] && t[i + 1] == s[k + 1 + i + 1];
      }
    }
    if DottedDecimal(t) {
      forall i | 0 <= i < |s| ensures IsDigit(s[i]) || s[i] == '.' {
        if i > k {
          assert s[i] == t[i - k - 1];
        }
      }
      forall i | 0 <= i < |s| - 1 && s[i] == '.' ensures IsDigit(s[i + 1]) {
        if i > k {
          assert s[i] == t[i - k - 1] && s[i + 1] == t[i - k];
        } else if i == k {
          assert s[i + 1] == t[0];
        }
      }
      assert s[|s| - 1] == t[|t| - 1];
    }
  }

  /** Dot-separated decimal segments, at least one, none of them empty. */
  function ParseSegments(s: string): (r: Option<seq<nat>>)
    ensures r.Some? ==> |r.value| > 0
    decreases |s|
  {
    var k := DigitRun(s);
    if k == 0 then None
    else if k == |s| then
      assert s[..k] == s;
      Some([DigitsValue(s)])
    else if s[k] != '.' then None
    else
      match ParseSegments(s[k + 1..])
      case None => None
      case Some(rest) => Some([DigitsValue(s[..k])] + rest)
  }

  /** ParseSegments accepts exactly the dotted decimals. */
  lemma {:induction false} ParseSegmentsGrammar(s: string)
    ensures ParseSegments(s).Some? <==> DottedDecimal(s)
    decreases |s|
  {
    var k := DigitRun(s);
    if k == |s| && k > 0 {
      assert s[..k] == s;
    } else if 0 < k < |s| && s[k] == '.' {
      DottedDecimalShift(s, k);
      ParseSegmentsGrammar(s[k + 1..]);
    }
  }

  /** Stand-in for the library's NewVersion: None plays the part of its error.
      A string parses exactly when it is a dotted decimal. */
  function Parse(s: string): (r: Option<Version>)
    ensures r.Some? <==> DottedDecimal(s)
    ensures r.Some? ==> |r.value.segments| > 0
  {
    ParseSegmentsGrammar(s);
    match ParseSegments(s)
    case None => None
    case Some(segs) => Some(Version(segs))
  }

  /** The canonical writing of a list of segments, dot-separated. */
  function FormatSegments(segs: seq<nat>): (s: string)
    requires |segs| > 0
    ensures |s| > 0
  {
    if |segs| == 1 then NatToString(segs[0])
    else NatToString(segs[0]) + "." + FormatSegments(segs[1..])
  }

  function Format(v: Version): string
    requires |v.segments| > 0
  {
    FormatSegments(v.segments)
  }

  lemma {:induction false} ParseFormatSegments(segs: seq<nat>)
    requires |segs| > 0
    ensures ParseSegments(FormatSegments(segs)) == Some(segs)
  {
    var d := NatToString(segs[0]);
    DigitsValueOfNatToString(segs[0]);
    if |segs| == 1 {
      DigitRunAppend(d, []);
      assert d + [] == d;
      assert [segs[0]] == segs;
    } else {
      var rest := FormatSegments(segs[1..]);
      var s := d + "." + rest;
      assert s == d + ("." + rest);
      DigitRunAppend(d, "." + rest);
      assert s[|d|] == '.';
      assert s[..|d|] == d;
      assert s[|d| + 1..] == rest;
      ParseFormatSegments(segs[1..]);
      assert [segs[0]] + segs[1..] == segs;
    }
  }

  /** Every version with at least one segment is parsed back from its writing. */
  lemma ParseFormat(v: Version)
    requires |v.segments| > 0
    ensures Parse(Format(v)) == Some(v)
  {
    ParseFormatSegments(v.segments);
  }

  // ---------------------------------------------------------------------
  // Ordering

  /** Segment i of s, zero beyond its end. */
  function Segment(s: seq<nat>, i: nat): nat {
    if i < |s| then s[i] else 0
  }

  function Head(s: seq<nat>): nat {
    if s == [] then 0 else s[0]
  }

  function Tail(s: seq<nat>): seq<nat> {
    if s == [] then [] else s[1..]
  }

  /** Three-way comparison of zero-padded segment lists: -1, 0 or 1. */
  function Compare(a: seq<nat>, b: seq<nat>): (c: int)
    ensures -1 <= c <= 1
    decreases |a| + |b|
  {
    if a == [] && b == [] then 0
    else if Head(a) < Head(b) then -1
    else if Head(a) > Head(b) then 1
    else Compare(Tail(a), Tail(b))
  }

  /** Stand-in for the library's LessThan. */
  predicate LessThan(v: Version, w: Version) {
    Compare(v.segments, w.segments) < 0
  }

  /** Reference definition: a is below b at the first segment where they differ. */
  ghost predicate LexLess(a: seq<nat>, b: seq<nat>) {
    exists k: nat :: Segment(a, k) < Segment(b, k) && forall i: nat :: i < k ==> Segment(a, i) == Segment(b, i)
  }

  /** Reference definition: a and b agree once padded with zeros. */
  ghost predicate PaddedEqual(a: seq<nat>, b: seq<nat>) {
    forall i: nat :: Segment(a, i) == Segment(b, i)
  }

  lemma SegmentShift(s: seq<nat>, i: nat)
    ensures Segment(Tail(s), i) == Segment(s, i + 1)
    ensures Segment(s, 0) == Head(s)
  {
  }

  lemma LexLessShift(a: seq<nat>, b: seq<nat>)
    requires Head(a) == Head(b)
    ensures LexLess(a, b) <==> LexLess(Tail(a), Tail(b))
  {
    if LexLess(a, b) {
      var k: nat :| Segment(a, k) < Segment(b, k) && forall i: nat :: i < k ==> Segment(a, i) == Segment(b, i);
      SegmentShift(a, 0);
      SegmentShift(b, 0);
      assert k > 0;
      SegmentShift(a, k - 1);
      SegmentShift(b, k - 1);
      forall i: nat | i < k - 1 ensures Segment(Tail(a), i) == Segment(Tail(b), i) {
        SegmentShift(a, i);
        SegmentShift(b, i);
      }
    }
    if LexLess(Tail(a), Tail(b)) {
      var k: nat :| Segment(Tail(a), k) < Segment(Tail(b), k) && forall i: nat :: i < k ==> Segment(Tail(a), i) == Segment(Tail(b), i);
      SegmentShift(a, k);
      SegmentShift(b, k);
      forall i: nat | i < k + 1 ensures Segment(a, i) == Segment(b, i) {
        SegmentShift(a, 0);
        SegmentShift(b, 0);
        if i > 0 {
          SegmentShift(a, i - 1);
          SegmentShift(b, i - 1);
        }
      }
      assert Segment(a, k + 1) < Segment(b, k + 1);
    }
  }

  lemma PaddedEqualShift(a: seq<nat>, b: seq<nat>)
    ensures PaddedEqual(a, b) <==> Head(a) == Head(b) && PaddedEqual(Tail(a), Tail(b))
  {
    SegmentShift(a, 0);
    SegmentShift(b, 0);
    if PaddedEqual(a, b) {
      forall i: nat ensures Segment(Tail(a), i) == Segment(Tail(b), i) {
        SegmentShift(a, i);
        SegmentShift(b, i);
      }
    }
    if Head(a) == Head(b) && PaddedEqual(Tail(a), Tail(b)) {
      forall i: nat ensures Segment(a, i) == Segment(b, i) {
        if i > 0 {
          SegmentShift(a, i - 1);
          SegmentShift(b, i - 1);
        }
      }
    }
  }

  /** Compare agrees with the reference definitions, in both directions. */
  lemma {:induction false} CompareMeaning(a: seq<nat>, b: seq<nat>)
    ensures Compare(a, b) < 0 <==> LexLess(a, b)
    ensures Compare(a, b) == 0 <==> PaddedEqual(a, b)
    ensures Compare(a, b) > 0 <==> LexLess(b, a)
    decreases |a| + |b|
  {
    SegmentShift(a, 0);
    SegmentShift(b, 0);
    PaddedEqualShift(a, b);
    if a == [] && b == [] {
      assert !LexLess(a, b) && !LexLess(b, a);
    } else if Head(a) != Head(b) {
      assert Head(a) < Head(b) ==> LexLess(a, b) && !LexLess(b, a);
      assert Head(a) > Head(b) ==> LexLess(b, a) && !LexLess(a, b);
    } else {
      CompareMeaning(Tail(a), Tail(b));
      LexLessShift(a, b);
      LexLessShift(b, a);
    }
  }

  lemma {:induction false} CompareAntisymmetric(a: seq<nat>, b: seq<nat>)
    ensures Compare(a, b) == -Compare(b, a)
    decreases |a| + |b|
  {
    if !(a == [] && b == []) && Head(a) == Head(b) {
      CompareAntisymmetric(Tail(a), Tail(b));
    }
  }

  lemma CompareStep(a: seq<nat>, b: seq<nat>)
    requires Head(a) == Head(b)
    ensures Compare(a, b) == Compare(Tail(a), Tail(b))
  {
  }

  lemma {:induction false} CompareTransitive(a: seq<nat>, b: seq<nat>, c: seq<nat>)
    requires Compare(a, b) <= 0 && Compare(b, c) <= 0
    ensures Compare(a, c) <= 0
    ensures Compare(a, b) < 0 || Compare(b, c) < 0 ==> Compare(a, c) < 0
    decreases |a| + |b| + |c|
  {
    if a == [] && c == [] {
      // with a and c both empty, Compare(a, b) and Compare(b, c) are opposite
      CompareAntisymmetric(a, b);
    } else if Head(a) < Head(c) {
    } else {
      assert Head(a) == Head(b) == Head(c);
      CompareStep(a, b);
      CompareStep(b, c);
      CompareStep(a, c);
      CompareTransitive(Tail(a), Tail(b), Tail(c));
    }
  }

  /** v is less than w exactly when, padded with zeros, v is below w at the
      first segment where they differ. */
  lemma LessThanMeaning(v: Version, w: Version)
    ensures LessThan(v, w) <==> LexLess(v.segments, w.segments)
  {
    CompareMeaning(v.segments, w.segments);
  }

  /** LessThan is a strict order: irreflexive, asymmetric and transitive;
      and any two versions are ordered one way or the other, or equal once padded. */
  lemma LessThanStrictOrder(u: Version, v: Version, w: Version)
    ensures !LessThan(u, u)
    ensures LessThan(u, v) ==> !LessThan(v, u)
    ensures LessThan(u, v) && LessThan(v, w) ==> LessThan(u, w)
    ensures LessThan(u, v) || LessThan(v, u) || PaddedEqual(u.segments, v.segments)
  {
    CompareAntisymmetric(u.segments, u.segments);
    CompareAntisymmetric(u.segments, v.segments);
    CompareMeaning(u.segments, v.segments);
    if LessThan(u, v) && LessThan(v, w) {
      CompareTransitive(u.segments, v.segments, w.segments);
    }
  }
}
