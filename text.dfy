/** The parts of Python's `str` that the core relies on: `in`, `find`,
    `strip()` and `split(sep)`. */
module Text {
  import opened Wrappers

  /** The characters Python's `str.isspace` accepts, which `strip()` with no
      argument removes from both ends. */
  predicate IsSpace(c: char) {
    || c == ' '
    || ('\t' <= c <= '\r')
    || ('\U{1c}' <= c <= '\U{1f}')
    || c == '\U{85}' || c == '\U{a0}' || c == '\U{1680}'
    || ('\U{2000}' <= c <= '\U{200a}')
    || c == '\U{2028}' || c == '\U{2029}' || c == '\U{202f}'
    || c == '\U{205f}' || c == '\U{3000}'
  }

  /** `pat` occurs in `s` starting at index `i`. */
  predicate OccursAt(s: string, pat: string, i: int) {
    0 <= i && i + |pat| <= |s| && s[i..i + |pat|] == pat
  }

  /** Python's `s.find(pat, from)`: the lowest index at or after `from` where
      `pat` occurs, or None where Python returns -1 (`FindSpec`). */
  function Find(s: string, pat: string, from: nat): Option<nat>
    decreases |s| - from
  {
    if from + |pat| > |s| then None
    else if s[from..from + |pat|] == pat then Some(from)
    else Find(s, pat, from + 1)
  }

  /** What `find` returns: an occurrence at or after `from` with none between
      `from` and it, or None when there is no occurrence from `from` on. */
  lemma {:induction false} FindSpec(s: string, pat: string, from: nat)
    ensures var r := Find(s, pat, from);
            && (r.Some? ==> from <= r.value && OccursAt(s, pat, r.value))
            && (r.Some? ==> forall i :: from <= i < r.value ==> !OccursAt(s, pat, i))
            && (r.None? ==> forall i :: from <= i ==> !OccursAt(s, pat, i))
    decreases |s| - from
  {
    if from + |pat| <= |s| && s[from..from + |pat|] != pat {
      FindSpec(s, pat, from + 1);
    }
  }

  /** An occurrence with none before it, from `from` on, is what `find`
      returns. */
  lemma {:induction false} FindFirst(s: string, pat: string, from: nat, p: nat)
    requires from <= p && OccursAt(s, pat, p)
    requires forall i :: from <= i < p ==> !OccursAt(s, pat, i)
    ensures Find(s, pat, from) == Some(p)
    decreases p - from
  {
    if from < p {
      assert !OccursAt(s, pat, from);
      FindFirst(s, pat, from + 1, p);
    }
  }

  /** Without an occurrence from `from` on, `find` returns -1. */
  lemma {:induction false} FindNone(s: string, pat: string, from: nat)
    requires forall i :: from <= i < |s| ==> !OccursAt(s, pat, i)
    requires pat != []
    ensures Find(s, pat, from).None?
    decreases |s| - from
  {
    if from + |pat| <= |s| {
      assert !OccursAt(s, pat, from);
      FindNone(s, pat, from + 1);
    }
  }

  /** Concatenation is associative. */
  lemma AppendAssoc(a: string, b: string, c: string)
    ensures a + b + c == a + (b + c)
  {
  }

  /** The middle piece of `a + b + c` sits right after `a`. */
  lemma MiddleSlice(a: string, b: string, c: string)
    ensures (a + b + c)[|a|..|a| + |b|] == b
  {
    var s := a + b + c;
    assert forall i :: 0 <= i < |b| ==> s[|a|..|a| + |b|][i] == b[i];
  }

  /** The first `n` characters after `a` in `a + b` start `b`. */
  lemma SliceAfter(a: string, b: string, n: nat)
    requires n <= |b|
    ensures (a + b)[|a|..|a| + n] == b[..n]
  {
    var s := a + b;
    assert forall i :: 0 <= i < n ==> s[|a|..|a| + n][i] == b[i];
  }

  /** Python's `pat in s`. */
  function Contains(s: string, pat: string): (b: bool)
    ensures b <==> exists i :: OccursAt(s, pat, i)
  {
    FindSpec(s, pat, 0);
    Find(s, pat, 0).Some?
  }

  /** `s` without its leading whitespace: a suffix that does not start with
      whitespace. */
  function StripLeft(s: string): (r: string)
    ensures |r| <= |s| && r == s[|s| - |r|..]
    ensures r != [] ==> !IsSpace(r[0])
  {
    if s != [] && IsSpace(s[0]) then StripLeft(s[1..]) else s
  }

  /** `s` without its trailing whitespace: a prefix that does not end with
      whitespace. */
  function StripRight(s: string): (r: string)
    ensures |r| <= |s| && r == s[..|r|]
    ensures r != [] ==> !IsSpace(r[|r| - 1])
  {
    if s != [] && IsSpace(s[|s| - 1]) then StripRight(s[..|s| - 1]) else s
  }

  /** Only whitespace is removed on the left. */
  lemma {:induction false} StripLeftRemovesSpace(s: string)
    ensures forall i :: 0 <= i < |s| - |StripLeft(s)| ==> IsSpace(s[i])
  {
    if s != [] && IsSpace(s[0]) {
      StripLeftRemovesSpace(s[1..]);
      forall i | 1 <= i < |s| - |StripLeft(s)|
        ensures IsSpace(s[i])
      {
        assert s[i] == s[1..][i - 1];
      }
    }
  }

  /** Only whitespace is removed on the right. */
  lemma {:induction false} StripRightRemovesSpace(s: string)
    ensures forall i :: |StripRight(s)| <= i < |s| ==> IsSpace(s[i])
  {
    if s != [] && IsSpace(s[|s| - 1]) {
      StripRightRemovesSpace(s[..|s| - 1]);
    }
  }

  /** Python's `s.strip()`: a slice of `s` that neither starts nor ends with
      whitespace; `StripRemovesSpace` shows only whitespace lies outside it. */
  function Strip(s: string): (r: string)
    ensures var lo := |s| - |StripLeft(s)|;
            lo + |r| <= |s| && r == s[lo..lo + |r|]
    ensures r != [] ==> !IsSpace(r[0]) && !IsSpace(r[|r| - 1])
  {
    var l := StripLeft(s);
    var r := StripRight(l);
    PrefixOfSuffix(s, |s| - |l|, |r|);
    if r != [] then
      assert r[0] == l[0];
      r
    else r
  }

  /** A prefix of a suffix is a middle slice. */
  lemma PrefixOfSuffix(s: string, lo: nat, n: nat)
    requires lo + n <= |s|
    ensures s[lo..][..n] == s[lo..lo + n]
  {
  }

  /** Everything `strip()` removes is whitespace. */
  lemma StripRemovesSpace(s: string)
    ensures var lo := |s| - |StripLeft(s)|;
            && (forall i :: 0 <= i < lo ==> IsSpace(s[i]))
            && (forall i :: lo + |Strip(s)| <= i < |s| ==> IsSpace(s[i]))
  {
    StripLeftRemovesSpace(s);
    StripRightOfSuffix(s);
  }

  /** What `strip()` removes on the right, as positions of `s`. */
  lemma StripRightOfSuffix(s: string)
    ensures var lo := |s| - |StripLeft(s)|;
            forall i :: lo + |Strip(s)| <= i < |s| ==> IsSpace(s[i])
  {
    var l := StripLeft(s);
    StripRightRemovesSpace(l);
    SpaceInSuffix(s, |s| - |l|, |StripRight(l)|);
  }

  /** Whitespace at the end of the suffix `s[lo..]` is whitespace of `s`. */
  lemma SpaceInSuffix(s: string, lo: nat, n: nat)
    requires lo <= |s|
    requires forall i :: n <= i < |s| - lo ==> IsSpace(s[lo..][i])
    ensures forall i :: lo + n <= i < |s| ==> IsSpace(s[i])
  {
    forall i | lo + n <= i < |s|
      ensures IsSpace(s[i])
    {
      assert s[i] == s[lo..][i - lo];
    }
  }

  /** A character absent from `s` is absent from its strip. */
  lemma StripKeepsOut(s: string, c: char)
    requires forall i :: 0 <= i < |s| ==> s[i] != c
    ensures forall i :: 0 <= i < |Strip(s)| ==> Strip(s)[i] != c
  {
    var lo := |s| - |StripLeft(s)|;
    SliceKeepsOut(s, lo, Strip(s), c);
  }

  /** A character absent from `s` is absent from its slices. */
  lemma SliceKeepsOut(s: string, lo: nat, piece: string, c: char)
    requires lo + |piece| <= |s| && piece == s[lo..lo + |piece|]
    requires forall i :: 0 <= i < |s| ==> s[i] != c
    ensures forall i :: 0 <= i < |piece| ==> piece[i] != c
  {
    forall i | 0 <= i < |piece|
      ensures piece[i] != c
    {
      assert piece[i] == s[lo + i];
    }
  }

  /** Text with no whitespace at either end is its own strip. */
  lemma StripUnpadded(s: string)
    requires s != [] ==> !IsSpace(s[0]) && !IsSpace(s[|s| - 1])
    ensures Strip(s) == s
  {
  }

  /** Text after a non-space character is untouched by stripping on the left. */
  lemma {:induction false} StripLeftAppend(a: string, b: string)
    requires b != [] && !IsSpace(b[0])
    ensures StripLeft(a + b) == StripLeft(a) + b
  {
    if a == [] {
      assert a + b == b;
    } else if IsSpace(a[0]) {
      assert (a + b)[1..] == a[1..] + b;
      StripLeftAppend(a[1..], b);
    } else {
      assert (a + b)[0] == a[0];
    }
  }

  /** Text before a non-space character is untouched by stripping on the right. */
  lemma {:induction false} StripRightPrepend(a: string, b: string)
    requires a != [] && !IsSpace(a[|a| - 1])
    ensures StripRight(a + b) == a + StripRight(b)
    decreases |b|
  {
    if b == [] {
      assert a + b == a;
    } else if IsSpace(b[|b| - 1]) {
      var b' := b[..|b| - 1];
      assert (a + b)[..|a + b| - 1] == a + b';
      StripRightPrepend(a, b');
    } else {
      assert (a + b)[|a + b| - 1] == b[|b| - 1];
    }
  }

  /** A trailing whitespace character does not change the strip. */
  lemma StripDropsTrailingSpace(s: string, x: char)
    requires IsSpace(x)
    ensures Strip(s + [x]) == Strip(s)
  {
    var l := StripLeft(s);
    if l == [] {
      StripLeftRemovesSpace(s);
      assert forall i :: 0 <= i < |s + [x]| ==> IsSpace((s + [x])[i]);
      LeftAllSpace(s + [x]);
    } else {
      assert l[0] == s[|s| - |l|];
      var w := s[..|s| - |l|];
      assert s == w + l;
      assert s + [x] == w + (l + [x]);
      StripLeftAppend(w, l);
      StripLeftAppend(w, l + [x]);
      assert (l + [x])[..|l + [x]| - 1] == l;
    }
  }

  /** Text made of whitespace strips to nothing on the left. */
  lemma {:induction false} LeftAllSpace(s: string)
    requires forall i :: 0 <= i < |s| ==> IsSpace(s[i])
    ensures StripLeft(s) == []
  {
    if s != [] {
      assert forall i :: 0 <= i < |s[1..]| ==> IsSpace(s[1..][i]) by {
        forall i | 0 <= i < |s[1..]|
          ensures IsSpace(s[1..][i])
        {
          assert s[1..][i] == s[i + 1];
        }
      }
      LeftAllSpace(s[1..]);
    }
  }

  /** Leading whitespace does not change the strip. */
  lemma {:induction false} StripDropsLeadingSpaces(w: string, s: string)
    requires forall i :: 0 <= i < |w| ==> IsSpace(w[i])
    ensures Strip(w + s) == Strip(s)
  {
    if w == [] {
      assert w + s == s;
    } else {
      assert (w + s)[0] == w[0];
      assert (w + s)[1..] == w[1..] + s;
      assert StripLeft(w + s) == StripLeft(w[1..] + s);
      StripDropsLeadingSpaces(w[1..], s);
    }
  }

  /** Trailing whitespace does not change the strip. */
  lemma {:induction false} StripDropsTrailingSpaces(s: string, w: string)
    requires forall i :: 0 <= i < |w| ==> IsSpace(w[i])
    ensures Strip(s + w) == Strip(s)
    decreases |w|
  {
    if w == [] {
      assert s + w == s;
    } else {
      var w' := w[..|w| - 1];
      assert s + w == (s + w') + [w[|w| - 1]];
      StripDropsTrailingSpace(s + w', w[|w| - 1]);
      StripDropsTrailingSpaces(s, w');
    }
  }

  /** Whitespace around a text does not change its strip. */
  lemma StripIgnoresPadding(w1: string, t: string, w2: string)
    requires forall i :: 0 <= i < |w1| ==> IsSpace(w1[i])
    requires forall i :: 0 <= i < |w2| ==> IsSpace(w2[i])
    ensures Strip(w1 + t + w2) == Strip(t)
  {
    StripDropsTrailingSpaces(w1 + t, w2);
    StripDropsLeadingSpaces(w1, t);
  }

  /** Stripping the left first does not change the strip. */
  lemma StripOfStripLeft(s: string)
    ensures Strip(StripLeft(s)) == Strip(s)
  {
    var l := StripLeft(s);
    if l != [] {
      assert StripLeft(l) == l;
    }
  }

  /** Stripping the right first does not change the strip. */
  lemma {:induction false} StripOfStripRight(s: string)
    ensures Strip(StripRight(s)) == Strip(s)
    decreases |s|
  {
    if s != [] && IsSpace(s[|s| - 1]) {
      var s' := s[..|s| - 1];
      assert StripRight(s) == StripRight(s');
      StripOfStripRight(s');
      assert s == s' + [s[|s| - 1]];
      StripDropsTrailingSpace(s', s[|s| - 1]);
    }
  }

  /** A separator that is not whitespace splits the strip at its ends only:
      the left piece loses its leading and the right piece its trailing
      whitespace. */
  lemma StripTwo(a: string, sep: char, b: string)
    requires !IsSpace(sep)
    ensures Strip(a + [sep] + b) == StripLeft(a) + [sep] + StripRight(b)
  {
    var l := StripLeft(a);
    AppendAssoc(a, [sep], b);
    StripLeftAppend(a, [sep] + b);
    AppendAssoc(l, [sep], b);
    StripRightPrepend(l + [sep], b);
  }

  /** The same for two separators: the middle piece is kept whole. */
  lemma StripThree(a: string, sep: char, b: string, c: string)
    requires !IsSpace(sep)
    ensures Strip(a + [sep] + b + [sep] + c) == StripLeft(a) + [sep] + b + [sep] + StripRight(c)
  {
    var l, r := StripLeft(a), StripRight(c);
    ThreePieces(a, sep, b, c);
    StripTwo(a, sep, b + [sep] + c);
    StripRightPrepend(b + [sep], c);
    ThreePieces(l, sep, b, r);
  }

  /** A character absent from `s` is absent from its one-sided strips. */
  lemma StripEndsKeepOut(s: string, c: char)
    requires forall i :: 0 <= i < |s| ==> s[i] != c
    ensures forall i :: 0 <= i < |StripLeft(s)| ==> StripLeft(s)[i] != c
    ensures forall i :: 0 <= i < |StripRight(s)| ==> StripRight(s)[i] != c
  {
    var l, r := StripLeft(s), StripRight(s);
    assert l == s[|s| - |l|..|s| - |l| + |l|];
    SliceKeepsOut(s, |s| - |l|, l, c);
    assert r == s[0..0 + |r|];
    SliceKeepsOut(s, 0, r, c);
  }

  /** Python's `s.split(sep)` for a one-character separator: the pieces between
      the separators, empty pieces included; `"".split(sep)` is `[""]`. */
  function Split(s: string, sep: char): (parts: seq<string>)
    ensures |parts| >= 1
    ensures forall k, i :: 0 <= k < |parts| && 0 <= i < |parts[k]| ==> parts[k][i] != sep
  {
    if s == [] then [[]]
    else
      var rest := Split(s[1..], sep);
      if s[0] == sep then [[]] + rest
      else [[s[0]] + rest[0]] + rest[1..]
  }

  /** Python's `sep.join(parts)`. */
  function Join(parts: seq<string>, sep: char): string
    requires |parts| >= 1
  {
    if |parts| == 1 then parts[0] else parts[0] + [sep] + Join(parts[1..], sep)
  }

  /** Joining the parts with the separator gives back the text. */
  lemma {:induction false} JoinSplit(s: string, sep: char)
    ensures Join(Split(s, sep), sep) == s
  {
    if s != [] {
      JoinSplit(s[1..], sep);
      var rest := Split(s[1..], sep);
      if s[0] == sep {
        JoinEmptyFirst(rest, sep);
      } else {
        JoinExtendFirst(s[0], rest, sep);
      }
      assert s == [s[0]] + s[1..];
    }
  }

  /** An empty first part contributes only the separator after it. */
  lemma JoinEmptyFirst(rest: seq<string>, sep: char)
    requires |rest| >= 1
    ensures Join([[]] + rest, sep) == [sep] + Join(rest, sep)
  {
    assert ([[]] + rest)[1..] == rest;
  }

  /** A character put in front of the first part comes first in the join. */
  lemma JoinExtendFirst(c: char, rest: seq<string>, sep: char)
    requires |rest| >= 1
    ensures Join([[c] + rest[0]] + rest[1..], sep) == [c] + Join(rest, sep)
  {
    var parts := [[c] + rest[0]] + rest[1..];
    if |rest| > 1 {
      assert parts[1..] == rest[1..];
      assert Join(parts, sep) == [c] + rest[0] + [sep] + Join(rest[1..], sep);
    }
  }

  /** A piece with no separator in it is one part. */
  lemma {:induction false} SplitNoSeparator(a: string, sep: char)
    requires forall i :: 0 <= i < |a| ==> a[i] != sep
    ensures Split(a, sep) == [a]
  {
    if a != [] {
      SplitNoSeparator(a[1..], sep);
      assert [a[0]] + a[1..] == a;
    }
  }

  /** Splitting at the first separator: the piece before it, then the split
      of what follows it. */
  lemma {:induction false} SplitAtFirst(a: string, sep: char, b: string)
    requires forall i :: 0 <= i < |a| ==> a[i] != sep
    ensures Split(a + [sep] + b, sep) == [a] + Split(b, sep)
  {
    if a == [] {
      assert a + [sep] + b == [sep] + b;
      assert ([sep] + b)[1..] == b;
    } else {
      SplitAtFirst(a[1..], sep, b);
      assert (a + [sep] + b)[1..] == a[1..] + [sep] + b;
      assert [a[0]] + a[1..] == a;
    }
  }

  /** Two separator-free pieces joined by the separator split back into them. */
  lemma SplitInTwo(a: string, sep: char, b: string)
    requires forall i :: 0 <= i < |a| ==> a[i] != sep
    requires forall i :: 0 <= i < |b| ==> b[i] != sep
    ensures Split(a + [sep] + b, sep) == [a, b]
  {
    SplitAtFirst(a, sep, b);
    SplitNoSeparator(b, sep);
  }

  /** Three separator-free pieces joined by the separator split back into them. */
  lemma SplitInThree(a: string, sep: char, b: string, c: string)
    requires forall i :: 0 <= i < |a| ==> a[i] != sep
    requires forall i :: 0 <= i < |b| ==> b[i] != sep
    requires forall i :: 0 <= i < |c| ==> c[i] != sep
    ensures Split(a + [sep] + b + [sep] + c, sep) == [a, b, c]
  {
    var rest := b + [sep] + c;
    ThreePieces(a, sep, b, c);
    SplitAtFirst(a, sep, rest);
    SplitInTwo(b, sep, c);
  }

  /** Regrouping three pieces joined by a separator. */
  lemma ThreePieces(a: string, sep: char, b: string, c: string)
    ensures a + [sep] + b + [sep] + c == a + [sep] + (b + [sep] + c)
  {
  }

  /** The number of occurrences of `c` in `s`. */
  function Count(s: string, c: char): nat {
    if s == [] then 0 else (if s[0] == c then 1 else 0) + Count(s[1..], c)
  }

  /** There is one more part than there are separators. */
  lemma {:induction false} SplitCount(s: string, sep: char)
    ensures |Split(s, sep)| == Count(s, sep) + 1
  {
    if s != [] {
      SplitCount(s[1..], sep);
    }
  }

  /** A character absent from the input is absent from every part. */
  lemma {:induction false} SplitKeepsOut(s: string, sep: char, c: char)
    requires forall i :: 0 <= i < |s| ==> s[i] != c
    ensures forall k, i :: 0 <= k < |Split(s, sep)| && 0 <= i < |Split(s, sep)[k]| ==> Split(s, sep)[k][i] != c
  {
    if s != [] {
      SplitKeepsOut(s[1..], sep, c);
      var rest := Split(s[1..], sep);
      if s[0] != sep {
        assert forall i :: 1 <= i < |[s[0]] + rest[0]| ==> ([s[0]] + rest[0])[i] == rest[0][i - 1];
      }
    }
  }

  /** An ASCII decimal digit. */
  predicate IsDigit(c: char) {
    '0' <= c <= '9'
  }

  predicate AllDigits(s: string) {
    forall i :: 0 <= i < |s| ==> IsDigit(s[i])
  }

  /** The digit character for 0..9. */
  function DigitChar(d: int): (c: char)
    requires 0 <= d <= 9
    ensures IsDigit(c)
  {
    (d + '0' as int) as char
  }

  /** The number a digit character stands for. */
  function DigitValue(c: char): (d: int)
    requires IsDigit(c)
    ensures 0 <= d <= 9 && DigitChar(d) == c
  {
    c as int - '0' as int
  }

  function Pow10(n: nat): (p: nat)
    ensures p >= 1
  {
    if n == 0 then 1 else 10 * Pow10(n - 1)
  }

  /** The value of a string of decimal digits, most significant first; the
      empty string is 0. */
  function DigitsValue(s: string): (v: nat)
    requires AllDigits(s)
  {
    if s == [] then 0 else DigitsValue(s[..|s| - 1]) * 10 + DigitValue(s[|s| - 1])
  }

  /** `n` written with exactly `width` digits, zero-padded on the left
      (Python's `f"{n:0{width}d}"` for `n < 10^width`). */
  function Padded(n: nat, width: nat): (s: string)
    ensures |s| == width && AllDigits(s)
  {
    if width == 0 then [] else Padded(n / 10, width - 1) + [DigitChar(n % 10)]
  }

  /** Reading back a zero-padded number gives the number. */
  lemma {:induction false} PaddedValue(n: nat, width: nat)
    requires n < Pow10(width)
    ensures DigitsValue(Padded(n, width)) == n
  {
    if width > 0 {
      PaddedValue(n / 10, width - 1);
      var s := Padded(n, width);
      assert s[..|s| - 1] == Padded(n / 10, width - 1);
    }
  }

  /** A digit string is the zero-padded form of its value, which is below
      10 to the power of its length. */
  lemma {:induction false} ValuePadded(s: string)
    requires AllDigits(s)
    ensures DigitsValue(s) < Pow10(|s|)
    ensures Padded(DigitsValue(s), |s|) == s
  {
    if s != [] {
      var init := s[..|s| - 1];
      ValuePadded(init);
      var v := DigitsValue(s);
      assert v / 10 == DigitsValue(init) && v % 10 == DigitValue(s[|s| - 1]);
      assert s == init + [s[|s| - 1]];
    }
  }
}
