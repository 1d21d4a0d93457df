/** String helpers the registration handler relies on: JavaScript's
    `String.prototype.split` on the literal separator " - ", its `trim`,
    and the decimal rendering of a positive seat count. */
module Text {

  /** The literal separator between the segments of a section title. */
  const Sep: string := " - "

  /** True when the separator occurs in `s` starting at position `i`. */
  predicate SepAt(s: string, i: int) {
    0 <= i && i + |Sep| <= |s| && s[i..i + |Sep|] == Sep
  }

  ghost predicate ContainsSep(s: string) {
    exists i :: SepAt(s, i)
  }

  /** The inverse of splitting: the parts glued back together with the separator. */
  function Join(parts: seq<string>): (s: string)
    ensures |parts| == 1 ==> s == parts[0]
  {
    if |parts| == 0 then ""
    else if |parts| == 1 then parts[0]
    else parts[0] + Sep + Join(parts[1..])
  }

  /** `s.split(" - ")`: scanning from the left, every occurrence of the
      separator that does not overlap an earlier one ends a segment. */
  function SplitOn(s: string): (parts: seq<string>)
    ensures |parts| >= 1
    decreases |s|
  {
    if |s| < |Sep| then [s]
    else if s[..|Sep|] == Sep then [""] + SplitOn(s[|Sep|..])
    else
      var rest := SplitOn(s[1..]);
      [[s[0]] + rest[0]] + rest[1..]
  }

  /** Joining a head segment onto at least one more segment. */
  lemma JoinCons(p: string, rest: seq<string>)
    requires |rest| >= 1
    ensures Join([p] + rest) == p + Sep + Join(rest)
  {
    assert ([p] + rest)[1..] == rest;
  }

  /** Extending the first segment by one character extends the joined string. */
  lemma JoinExtendHead(c: char, rest: seq<string>)
    requires |rest| >= 1
    ensures Join([[c] + rest[0]] + rest[1..]) == [c] + Join(rest)
  {
    var h := [c] + rest[0];
    if |rest| == 1 {
      assert [h] + rest[1..] == [h];
    } else {
      JoinCons(h, rest[1..]);
      JoinCons(rest[0], rest[1..]);
      assert [rest[0]] + rest[1..] == rest;
      ConsSepAssoc(c, rest[0], Join(rest[1..]));
    }
  }

  lemma ConsSepAssoc(c: char, p: string, q: string)
    ensures ([c] + p) + Sep + q == [c] + (p + Sep + q)
  {
  }

  /** Splitting loses nothing: joining the segments gives back the input. */
  lemma {:induction false} JoinSplit(s: string)
    ensures Join(SplitOn(s)) == s
    decreases |s|
  {
    if |s| < |Sep| {
    } else if s[..|Sep|] == Sep {
      JoinSplit(s[|Sep|..]);
      JoinSplitAtSep(s);
    } else {
      JoinSplit(s[1..]);
      JoinSplitAtChar(s);
    }
  }

  /** The step of `JoinSplit` where the input starts with the separator. */
  lemma JoinSplitAtSep(s: string)
    requires |s| >= |Sep| && s[..|Sep|] == Sep
    requires Join(SplitOn(s[|Sep|..])) == s[|Sep|..]
    ensures Join(SplitOn(s)) == s
  {
    var tail := s[|Sep|..];
    assert SplitOn(s) == [""] + SplitOn(tail);
    JoinCons("", SplitOn(tail));
    assert s == Sep + tail;
  }

  /** The step of `JoinSplit` where the input starts with a plain character. */
  lemma JoinSplitAtChar(s: string)
    requires |s| >= |Sep| && s[..|Sep|] != Sep
    requires Join(SplitOn(s[1..])) == s[1..]
    ensures Join(SplitOn(s)) == s
  {
    var rest := SplitOn(s[1..]);
    assert SplitOn(s) == [[s[0]] + rest[0]] + rest[1..];
    JoinExtendHead(s[0], rest);
    assert s == [s[0]] + s[1..];
  }

  /** Joining segments that split cleanly and splitting again gives the
      segments back. */
  lemma {:induction false} SplitJoin(parts: seq<string>)
    requires |parts| >= 1
    requires forall k :: 0 <= k < |parts| ==> Segment(parts[k])
    ensures SplitOn(Join(parts)) == parts
  {
    if |parts| == 1 {
      SplitPlain(parts[0]);
    } else {
      SplitJoin(parts[1..]);
      JoinCons(parts[0], parts[1..]);
      SplitAfterSegment(parts[0], Join(parts[1..]));
      assert [parts[0]] + parts[1..] == parts;
    }
  }

  /** No segment of a split contains the separator. */
  lemma {:induction false} SplitPartsHaveNoSep(s: string)
    ensures forall k :: 0 <= k < |SplitOn(s)| ==> !ContainsSep(SplitOn(s)[k])
    decreases |s|
  {
    if |s| < |Sep| {
      forall i ensures !SepAt(s, i) { }
    } else if s[..|Sep|] == Sep {
      SplitPartsHaveNoSep(s[|Sep|..]);
      assert forall i :: !SepAt("", i);
      assert SplitOn(s) == [""] + SplitOn(s[|Sep|..]);
    } else {
      var rest := SplitOn(s[1..]);
      SplitPartsHaveNoSep(s[1..]);
      JoinSplit(s[1..]);
      var head := [s[0]] + rest[0];
      // rest[0] is a prefix of s[1..], so head is a prefix of s
      assert Join(rest) == s[1..];
      assert rest[0] <= Join(rest) by { JoinPrefix(rest); }
      assert head <= s;
      forall i ensures !SepAt(head, i) {
        if i > 0 {
          SepAtShift(s[0], rest[0], i);
        } else {
          SepAtPrefix(head, s, i);
        }
      }
    }
  }

  /** An occurrence inside `[c] + t` past its first character is one inside `t`. */
  lemma SepAtShift(c: char, t: string, i: int)
    requires i > 0
    ensures SepAt([c] + t, i) == SepAt(t, i - 1)
  {
    if i + |Sep| <= |t| + 1 {
      assert ([c] + t)[i..i + |Sep|] == t[i - 1..i - 1 + |Sep|];
    }
  }

  /** An occurrence inside a prefix is an occurrence in the whole string. */
  lemma SepAtPrefix(p: string, s: string, i: int)
    requires p <= s
    ensures SepAt(p, i) ==> SepAt(s, i)
  {
    if SepAt(p, i) {
      assert s[i..i + |Sep|] == p[i..i + |Sep|];
    }
  }

  /** The first segment is a prefix of the joined string. */
  lemma JoinPrefix(parts: seq<string>)
    requires |parts| >= 1
    ensures parts[0] <= Join(parts)
  {
  }

  /** A segment that splits off cleanly when followed by the separator: it
      holds no separator and does not end in " -" (which the following
      separator would complete to an earlier occurrence). Hyphens elsewhere
      are allowed. */
  ghost predicate Segment(p: string) {
    !ContainsSep(p) && !(|p| >= 2 && p[|p| - 2..] == " -")
  }

  /** A string with no hyphen at all. */
  predicate DashFree(s: string) {
    forall k :: 0 <= k < |s| ==> s[k] != '-'
  }

  /** Every occurrence of the separator holds a hyphen, so a hyphen-free
      string is a segment. */
  lemma DashFreeIsSegment(p: string)
    requires DashFree(p)
    ensures Segment(p)
  {
    forall i ensures !SepAt(p, i) {
      if 0 <= i && i + |Sep| <= |p| {
        assert p[i..i + |Sep|][1] == p[i + 1];
      }
    }
    if |p| >= 2 {
      assert p[|p| - 2..][1] == p[|p| - 1];
    }
  }

  /** An occurrence in the tail of `p` is one in `p`, one place later. */
  lemma SepAtTail(p: string, i: int)
    requires |p| > 0
    ensures SepAt(p[1..], i) ==> SepAt(p, i + 1)
  {
    if SepAt(p[1..], i) {
      assert p[1..][i..i + |Sep|] == p[i + 1..i + 1 + |Sep|];
    }
  }

  /** The tail of a string without the separator has none either. */
  lemma NoSepTail(p: string)
    requires |p| > 0 && !ContainsSep(p)
    ensures !ContainsSep(p[1..])
  {
    forall i ensures !SepAt(p[1..], i) {
      SepAtTail(p, i);
    }
  }

  /** The tail of a segment is a segment. */
  lemma SegmentTail(p: string)
    requires |p| > 0 && Segment(p)
    ensures Segment(p[1..])
  {
    NoSepTail(p);
    if |p| >= 3 {
      assert p[1..][|p| - 3..] == p[|p| - 2..];
    }
  }

  /** A non-empty segment followed by the separator does not start with it. */
  lemma SegmentThenSepStartsPlain(p: string, rest: string)
    requires |p| > 0 && Segment(p)
    ensures (p + Sep + rest)[..|Sep|] != Sep
  {
    if |p| == 1 {
      OneCharThenSep(p, rest);
    } else if |p| == 2 {
      assert p[|p| - 2..] == p;
      TwoCharsThenSep(p, rest);
    } else {
      assert !SepAt(p, 0);
      LongThenSep(p, rest);
    }
  }

  /** One character and a separator: the blank of the separator sits where
      a match would need its hyphen. */
  lemma OneCharThenSep(p: string, rest: string)
    requires |p| == 1
    ensures (p + Sep + rest)[..|Sep|] != Sep
  {
    assert (p + Sep + rest)[..|Sep|][1] == ' ';
  }

  lemma TwoCharsThenSep(p: string, rest: string)
    requires |p| == 2 && p != " -"
    ensures (p + Sep + rest)[..|Sep|] != Sep
  {
    var s := p + Sep + rest;
    assert s[..|Sep|][..2] == p;
  }

  lemma LongThenSep(p: string, rest: string)
    requires |p| >= |Sep| && p[..|Sep|] != Sep
    ensures (p + Sep + rest)[..|Sep|] != Sep
  {
    assert (p + Sep + rest)[..|Sep|] == p[..|Sep|];
  }

  /** A leading segment is cut off at the separator that follows it. */
  lemma {:induction false} SplitAfterSegment(p: string, rest: string)
    requires Segment(p)
    ensures SplitOn(p + Sep + rest) == [p] + SplitOn(rest)
    decreases |p|
  {
    if |p| == 0 {
      assert p + Sep + rest == Sep + rest;
      SplitAtLeadingSep(rest);
    } else {
      SegmentThenSepStartsPlain(p, rest);
      SegmentTail(p);
      SplitAfterSegment(p[1..], rest);
      SplitPlainStep(p, rest);
    }
  }

  /** A string that starts with the separator splits off an empty piece. */
  lemma SplitAtLeadingSep(rest: string)
    ensures SplitOn(Sep + rest) == [""] + SplitOn(rest)
  {
    var s := Sep + rest;
    assert s[..|Sep|] == Sep;
    assert s[|Sep|..] == rest;
  }

  /** One character of `p` that does not start the separator joins the first
      piece of the split of what follows it. */
  lemma SplitPlainStep(p: string, rest: string)
    requires |p| > 0 && (p + Sep + rest)[..|Sep|] != Sep
    requires SplitOn(p[1..] + Sep + rest) == [p[1..]] + SplitOn(rest)
    ensures SplitOn(p + Sep + rest) == [p] + SplitOn(rest)
  {
    var s := p + Sep + rest;
    assert s[1..] == p[1..] + Sep + rest;
    assert [s[0]] + p[1..] == p;
  }

  /** A string without the separator is not split at all. */
  lemma {:induction false} SplitPlain(p: string)
    requires !ContainsSep(p)
    ensures SplitOn(p) == [p]
    decreases |p|
  {
    if |p| >= |Sep| {
      assert !SepAt(p, 0);
      NoSepTail(p);
      SplitPlain(p[1..]);
      assert [p[0]] + p[1..] == p;
    }
  }

  /** Whitespace as JavaScript's `trim` understands it: the WhiteSpace and
      LineTerminator code points of ECMAScript. */
  predicate IsWhitespace(c: char) {
    c == '\t' || c == '\n' || c == '\U{000B}' || c == '\U{000C}' || c == '\r' ||
    c == ' ' || c == '\U{00A0}' || c == '\U{1680}' ||
    ('\U{2000}' <= c <= '\U{200A}') ||
    c == '\U{2028}' || c == '\U{2029}' || c == '\U{202F}' || c == '\U{205F}' ||
    c == '\U{3000}' || c == '\U{FEFF}'
  }

  predicate AllWhitespace(s: string) {
    forall k :: 0 <= k < |s| ==> IsWhitespace(s[k])
  }

  /** Neither end of `s` is whitespace. */
  predicate IsTrimmed(s: string) {
    |s| == 0 || (!IsWhitespace(s[0]) && !IsWhitespace(s[|s| - 1]))
  }

  /** Where the whitespace run of `s` that starts at `i` ends. */
  function LeadingEnd(s: string, i: nat): (k: nat)
    requires i <= |s|
    ensures i <= k <= |s|
    ensures forall m :: i <= m < k ==> IsWhitespace(s[m])
    ensures k == |s| || !IsWhitespace(s[k])
    decreases |s| - i
  {
    if i < |s| && IsWhitespace(s[i]) then LeadingEnd(s, i + 1) else i
  }

  /** Where the whitespace run of `s` that ends just before `j` starts. */
  function TrailingStart(s: string, j: nat): (k: nat)
    requires j <= |s|
    ensures k <= j
    ensures forall m :: k <= m < j ==> IsWhitespace(s[m])
    ensures k == 0 || !IsWhitespace(s[k - 1])
  {
    if j > 0 && IsWhitespace(s[j - 1]) then TrailingStart(s, j - 1) else j
  }

  /** `s` with its leading whitespace removed: a suffix of `s`. */
  function TrimStart(s: string): (r: string)
    ensures |r| <= |s| && r == s[|s| - |r|..]
    ensures AllWhitespace(s[..|s| - |r|])
    ensures |r| == 0 || !IsWhitespace(r[0])
  {
    s[LeadingEnd(s, 0)..]
  }

  /** `s` with its trailing whitespace removed: a prefix of `s`. */
  function TrimEnd(s: string): (r: string)
    ensures |r| <= |s| && r == s[..|r|]
    ensures AllWhitespace(s[|r|..])
    ensures |r| == 0 || !IsWhitespace(r[|r| - 1])
  {
    s[..TrailingStart(s, |s|)]
  }

  /** `s.trim()`: `s` without its leading and trailing whitespace. */
  function Trim(s: string): (r: string)
    ensures IsTrimmed(r) && |r| <= |s|
  {
    TrimEnd(TrimStart(s))
  }

  /** Where the kept infix of `Trim(s)` starts. */
  function TrimOffset(s: string): nat {
    |s| - |TrimStart(s)|
  }

  lemma TrimSlice(s: string)
    ensures TrimOffset(s) + |Trim(s)| <= |s|
    ensures Trim(s) == s[TrimOffset(s)..TrimOffset(s) + |Trim(s)|]
  {
    var a := TrimStart(s);
    SliceOfSuffix(s, |s| - |a|, |TrimEnd(a)|);
  }

  /** What `Trim` removes is whitespace on both sides of the infix it keeps:
      with `IsTrimmed`, this determines the result. */
  lemma TrimIsInfix(s: string)
    ensures var r, i := Trim(s), TrimOffset(s);
            i + |r| <= |s| && s[i..i + |r|] == r &&
            AllWhitespace(s[..i]) && AllWhitespace(s[i + |r|..])
  {
    TrimSlice(s);
    TrimLeftCut(s);
    TrimRightCut(s);
  }

  /** What `Trim` cuts on the left is whitespace. */
  lemma TrimLeftCut(s: string)
    ensures TrimOffset(s) <= |s| && AllWhitespace(s[..TrimOffset(s)])
  {
  }

  /** What `Trim` cuts on the right is whitespace. */
  lemma TrimRightCut(s: string)
    ensures TrimOffset(s) + |Trim(s)| <= |s| && AllWhitespace(s[TrimOffset(s) + |Trim(s)|..])
  {
    var a := TrimStart(s);
    WhitespaceTailOfSuffix(s, a, TrimEnd(a));
  }

  /** White space at the end of a suffix of `s` is white space at the end of `s`. */
  lemma WhitespaceTailOfSuffix(s: string, a: string, r: string)
    requires |a| <= |s| && a == s[|s| - |a|..]
    requires |r| <= |a| && AllWhitespace(a[|r|..])
    ensures AllWhitespace(s[|s| - |a| + |r|..])
  {
    assert a[|r|..] == s[|s| - |a| + |r|..];
  }

  /** Trimming cannot create an occurrence of the separator. */
  lemma TrimKeepsNoSep(s: string)
    requires !ContainsSep(s)
    ensures !ContainsSep(Trim(s))
  {
    TrimSlice(s);
    InfixKeepsNoSep(s, TrimOffset(s), Trim(s));
  }

  /** A contiguous slice of a string without the separator has none either. */
  lemma InfixKeepsNoSep(s: string, i: nat, r: string)
    requires !ContainsSep(s)
    requires i + |r| <= |s| && r == s[i..i + |r|]
    ensures !ContainsSep(r)
  {
    forall j ensures !SepAt(r, j) {
      SepAtInfix(s, i, r, j);
    }
  }

  /** An occurrence inside an infix is an occurrence in the whole string. */
  lemma SepAtInfix(s: string, i: nat, r: string, j: int)
    requires i + |r| <= |s| && r == s[i..i + |r|]
    ensures SepAt(r, j) ==> SepAt(s, i + j)
  {
    if SepAt(r, j) {
      var w := r[j..j + |Sep|];
      assert forall k :: 0 <= k < |w| ==> w[k] == s[i + j..i + j + |Sep|][k];
      assert s[i + j..i + j + |Sep|] == w;
    }
  }

  lemma SliceOfSuffix(s: string, i: nat, n: nat)
    requires i + n <= |s|
    ensures s[i..][..n] == s[i..i + n] && s[i..][n..] == s[i + n..]
  {
  }

  /** Trimming a string whose ends are not whitespace changes nothing. */
  lemma TrimTrimmed(s: string)
    requires IsTrimmed(s)
    ensures Trim(s) == s
  {
  }

  /** Trimming twice is trimming once. */
  lemma TrimIdempotent(s: string)
    ensures Trim(Trim(s)) == Trim(s)
  {
    TrimTrimmed(Trim(s));
  }

  /** The decimal digit for `d`. */
  function DigitChar(d: nat): (c: char)
    requires d < 10
    ensures '0' <= c <= '9' && c as int - '0' as int == d
  {
    ('0' as int + d) as char
  }

  /** How JavaScript renders a seat count when it is concatenated into a
      string: decimal digits, no leading zero. (From 10^21 on JavaScript
      switches to exponent notation; no seat count comes near that.) */
  function Digits(n: nat): (s: string)
    ensures |s| >= 1
    ensures forall k :: 0 <= k < |s| ==> '0' <= s[k] <= '9'
    ensures |s| > 1 ==> s[0] != '0'
  {
    if n < 10 then [DigitChar(n)] else Digits(n / 10) + [DigitChar(n % 10)]
  }

  /** The number a string of decimal digits denotes. */
  function DigitsValue(s: string): nat
    requires forall k :: 0 <= k < |s| ==> '0' <= s[k] <= '9'
  {
    if |s| == 0 then 0
    else 10 * DigitsValue(s[..|s| - 1]) + (s[|s| - 1] as int - '0' as int)
  }

  /** Rendering a count in decimal loses nothing: reading it back gives the count. */
  lemma {:induction false} DigitsRoundTrip(n: nat)
    ensures DigitsValue(Digits(n)) == n
  {
    if n >= 10 {
      DigitsRoundTrip(n / 10);
      var s := Digits(n);
      assert s == Digits(n / 10) + [DigitChar(n % 10)];
      assert s[..|s| - 1] == Digits(n / 10);
      assert DigitsValue(s) == 10 * (n / 10) + n % 10;
    }
  }
}
