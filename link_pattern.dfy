/** The fixed pattern that MeshStatus::telnetMessage applies to every line:

      "  QUAD(?![\d])  .*  QUAD(?![\d])  .*  ([+-]?\d*\.\d+)(?![-+0-9\.])  "  ]  ;

    where QUAD is ((?:OCTET\.){3}OCTET) and OCTET is 25[0-5]|2[0-4][0-9]|[01]?[0-9][0-9]?.
    The match must start at index 0 and, having no end anchor, may leave trailing text.

    The module gives an independent description of a match (IsMatch, over the group
    boundaries) and an executable recogniser (Locate), and proves that they agree. */
module LinkPattern {
  import opened Lines

  datatype Option<T> = None | Some(value: T)

  /** One mesh link as the three captured texts of an accepted line. */
  datatype Link = Link(source: string, dest: string, quality: string)

  /** Group boundaries of one match of the pattern against a line: the source quad is
      line[1..srcEnd], the destination quad line[destStart..destEnd] and the float
      line[qualStart..qualEnd]; the closing `"];` follows the float. */
  datatype Shape = Shape(srcEnd: nat, destStart: nat, destEnd: nat, qualStart: nat, qualEnd: nat)

  // ---------------------------------------------------------------------------------
  // Characters and digit strings

  predicate IsDigit(c: char) { '0' <= c <= '9' }

  predicate IsSign(c: char) { c == '+' || c == '-' }

  predicate AllDigits(t: string) { forall k :: 0 <= k < |t| ==> IsDigit(t[k]) }

  function DigitValue(c: char): nat
    requires IsDigit(c)
  {
    (c as int) - ('0' as int)
  }

  /** The number a string of decimal digits denotes. */
  function DecimalValue(t: string): nat
    requires AllDigits(t)
    decreases |t|
  {
    if t == [] then 0 else DecimalValue(t[..|t| - 1]) * 10 + DigitValue(t[|t| - 1])
  }

  /** End of the longest run of digits that starts at i. */
  function DigitRunEnd(s: string, i: nat): (e: nat)
    requires i <= |s|
    ensures i <= e <= |s|
    ensures AllDigits(s[i..e])
    ensures e == |s| || !IsDigit(s[e])
    decreases |s| - i
  {
    if i < |s| && IsDigit(s[i]) then DigitRunEnd(s, i + 1) else i
  }

  /** A digit run that is not followed by a digit is the longest one. */
  lemma {:induction false} DigitRunEndUnique(s: string, i: nat, e: nat)
    requires i <= e <= |s|
    requires AllDigits(s[i..e])
    requires e == |s| || !IsDigit(s[e])
    ensures DigitRunEnd(s, i) == e
    decreases e - i
  {
    if i < e {
      assert IsDigit(s[i..e][0]);
      assert s[i + 1..e] == s[i..e][1..];
      DigitRunEndUnique(s, i + 1, e);
    }
  }

  // ---------------------------------------------------------------------------------
  // Octets

  /** The octet alternation of MeshStatus.cc:83, read literally:
      25[0-5] | 2[0-4][0-9] | [01]?[0-9][0-9]? */
  predicate IsOctet(t: string) {
    || (|t| == 3 && t[0] == '2' && t[1] == '5' && '0' <= t[2] <= '5')
    || (|t| == 3 && t[0] == '2' && '0' <= t[1] <= '4' && IsDigit(t[2]))
    || (AllDigits(t) && (|t| == 1 || |t| == 2 || (|t| == 3 && (t[0] == '0' || t[0] == '1'))))
  }

  lemma ValueOfThreeDigits(t: string)
    requires |t| == 3 && AllDigits(t)
    ensures DecimalValue(t) == 100 * DigitValue(t[0]) + 10 * DigitValue(t[1]) + DigitValue(t[2])
  {
    assert t[..2][..1] == t[..1] && t[..1][..0] == [];
    assert DecimalValue(t[..1]) == DigitValue(t[0]);
    assert DecimalValue(t[..2]) == DecimalValue(t[..1]) * 10 + DigitValue(t[1]);
    assert t[..3] == t;
  }

  /** An octet is exactly a string of one to three digits whose value is at most 255
      (leading zeros allowed, as in "007"). */
  lemma OctetIsByte(t: string)
    ensures IsOctet(t) <==> 1 <= |t| <= 3 && AllDigits(t) && DecimalValue(t) <= 255
  {
    if 1 <= |t| <= 3 && AllDigits(t) {
      if |t| == 1 {
        assert t[..0] == [];
      } else if |t| == 2 {
        assert t[..1][..0] == [];
        assert DecimalValue(t[..1]) == DigitValue(t[0]);
      } else {
        ValueOfThreeDigits(t);
      }
    }
  }

  // ---------------------------------------------------------------------------------
  // Dotted quads

  /** t is four octets joined by dots: the text of the group ((?:OCTET\.){3}OCTET). */
  predicate IsDottedQuad(t: string) {
    var parts := Split(t, '.');
    |parts| == 4 && forall k :: 0 <= k < 4 ==> IsOctet(parts[k])
  }

  /** The quad group and its lookahead (?![\d]) match s[i..e]. */
  predicate QuadAt(s: string, i: nat, e: nat) {
    i <= e <= |s| && IsDottedQuad(s[i..e]) && (e == |s| || !IsDigit(s[e]))
  }

  /** Recogniser for n octets separated by dots starting at i; the end of the last one. */
  function OctetsEnd(s: string, i: nat, n: nat): (r: Option<nat>)
    requires i <= |s| && n >= 1
    ensures r.Some? ==> i <= r.value <= |s|
    decreases n
  {
    var e := DigitRunEnd(s, i);
    if !IsOctet(s[i..e]) then None
    else if n == 1 then Some(e)
    else if e < |s| && s[e] == '.' then OctetsEnd(s, e + 1, n - 1)
    else None
  }

  /** Recogniser for the quad group and its lookahead at i. */
  function QuadEnd(s: string, i: nat): (r: Option<nat>)
    requires i <= |s|
    ensures r.Some? ==> i <= r.value <= |s|
  {
    OctetsEnd(s, i, 4)
  }

  lemma DigitsHaveNoDot(t: string)
    requires AllDigits(t)
    ensures '.' !in t
  {
  }

  /** t is n octets joined by dots. */
  predicate OctetsText(t: string, n: nat) {
    var parts := Split(t, '.');
    |parts| == n && forall k :: 0 <= k < n ==> IsOctet(parts[k])
  }

  /** An octet, a dot and n - 1 dot-separated octets are n dot-separated octets. */
  lemma OctetsAfterFirst(a: string, b: string, n: nat)
    requires IsOctet(a) && n >= 2 && OctetsText(b, n - 1)
    ensures OctetsText(a + ['.'] + b, n)
  {
    OctetIsByte(a);
    DigitsHaveNoDot(a);
    SplitAfterFirstPiece(a, b, '.');
    var parts := Split(a + ['.'] + b, '.');
    forall k | 0 <= k < n ensures IsOctet(parts[k]) {
      if k > 0 { assert parts[k] == Split(b, '.')[k - 1]; }
    }
  }

  /** The pieces of a slice that is a, a dot and b. */
  lemma SlicesOfJoined(s: string, i: nat, e: nat, a: string, b: string)
    requires i <= e <= |s| && s[i..e] == a + ['.'] + b
    ensures var p := i + |a|; p < e && s[i..p] == a && s[p] == '.' && s[p + 1..e] == b
  {
    var p := i + |a|;
    assert s[i..p] == s[i..e][..|a|];
    assert s[p] == s[i..e][|a|];
    assert s[p + 1..e] == s[i..e][|a| + 1..];
  }

  lemma {:induction false} OctetsEndSound(s: string, i: nat, n: nat)
    requires i <= |s| && n >= 1
    requires OctetsEnd(s, i, n).Some?
    ensures var e := OctetsEnd(s, i, n).value;
      OctetsText(s[i..e], n) && (e == |s| || !IsDigit(s[e]))
    decreases n
  {
    var p := DigitRunEnd(s, i);
    var e := OctetsEnd(s, i, n).value;
    if n == 1 {
      DigitsHaveNoDot(s[i..p]);
      SplitWithoutSeparator(s[i..p], '.');
    } else {
      assert p < |s| && s[p] == '.' && OctetsEnd(s, p + 1, n - 1) == Some(e);
      OctetsEndSound(s, p + 1, n - 1);
      SliceAround(s, i, e, p - i);
      assert s[i..e] == s[i..p] + ['.'] + s[p + 1..e] by {
        assert s[i..e] == s[i..e][..p - i] + [s[i..e][p - i]] + s[i..e][p - i + 1..];
      }
      OctetsAfterFirst(s[i..p], s[p + 1..e], n);
    }
  }

  lemma {:induction false} OctetsEndComplete(s: string, i: nat, e: nat, parts: seq<string>)
    requires i <= e <= |s| && (e == |s| || !IsDigit(s[e]))
    requires |parts| >= 1 && forall k :: 0 <= k < |parts| ==> IsOctet(parts[k])
    requires s[i..e] == Join(parts, '.')
    ensures OctetsEnd(s, i, |parts|) == Some(e)
    decreases |parts|
  {
    var first := parts[0];
    assert AllDigits(first) by { OctetIsByte(first); }
    if |parts| == 1 {
      DigitRunEndUnique(s, i, e);
    } else {
      var p := i + |first|;
      assert s[i..e] == first + ['.'] + Join(parts[1..], '.');
      SlicesOfJoined(s, i, e, first, Join(parts[1..], '.'));
      DigitRunEndUnique(s, i, p);
      OctetsEndComplete(s, p + 1, e, parts[1..]);
    }
  }

  /** The quad recogniser finds exactly the quad matches. */
  lemma QuadEndIsQuadAt(s: string, i: nat, e: nat)
    requires i <= |s|
    ensures QuadEnd(s, i) == Some(e) <==> QuadAt(s, i, e)
  {
    if QuadEnd(s, i) == Some(e) {
      OctetsEndSound(s, i, 4);
      assert OctetsText(s[i..e], 4);
    }
    if QuadAt(s, i, e) {
      var parts := Split(s[i..e], '.');
      JoinSplit(s[i..e], '.');
      OctetsEndComplete(s, i, e, parts);
    }
  }

  /** At a given position at most one quad matches: the group cannot stop early. */
  lemma QuadAtUnique(s: string, i: nat, e1: nat, e2: nat)
    requires QuadAt(s, i, e1) && QuadAt(s, i, e2)
    ensures e1 == e2
  {
    QuadEndIsQuadAt(s, i, e1);
    QuadEndIsQuadAt(s, i, e2);
  }

  // ---------------------------------------------------------------------------------
  // Floats

  /** t matches [+-]?\d*\.\d+ : an optional sign, digits, a dot and at least one digit. */
  predicate IsFloat(t: string) {
    var u := Unsigned(t);
    exists p :: 0 <= p < |u| - 1 && u[p] == '.' && AllDigits(u[..p]) && AllDigits(u[p + 1..])
  }

  /** t without its leading sign, if it has one: what [+-]? leaves to the rest. */
  function Unsigned(t: string): string {
    if |t| > 0 && IsSign(t[0]) then t[1..] else t
  }

  /** The float group and its lookahead (?![-+0-9\.]) match s[k..e]. */
  predicate FloatAt(s: string, k: nat, e: nat) {
    k <= e <= |s| && IsFloat(s[k..e]) && (e == |s| || !(IsSign(s[e]) || IsDigit(s[e]) || s[e] == '.'))
  }

  /** Recogniser for the float group and its lookahead at k. */
  function FloatEnd(s: string, k: nat): (r: Option<nat>)
    requires k <= |s|
    ensures r.Some? ==> k < r.value <= |s|
  {
    var p := DigitRunEnd(s, SignEnd(s, k));
    if !(p < |s| && s[p] == '.') then None
    else
      var e := DigitRunEnd(s, p + 1);
      if e == p + 1 then None
      else if e < |s| && (IsSign(s[e]) || s[e] == '.') then None
      else Some(e)
  }

  /** Where the digits of a float starting at k begin. */
  function SignEnd(s: string, k: nat): (d: nat)
    requires k <= |s|
    ensures k <= d <= |s|
  {
    if k < |s| && IsSign(s[k]) then k + 1 else k
  }

  lemma UnsignedSlice(s: string, k: nat, e: nat)
    requires k < e <= |s|
    ensures SignEnd(s, k) <= e && Unsigned(s[k..e]) == s[SignEnd(s, k)..e]
  {
    assert s[k..e][0] == s[k];
    if IsSign(s[k]) {
      assert s[k..e][1..] == s[k + 1..e];
    }
  }

  lemma FloatEndSound(s: string, k: nat)
    requires k <= |s| && FloatEnd(s, k).Some?
    ensures FloatAt(s, k, FloatEnd(s, k).value)
  {
    var e := FloatEnd(s, k).value;
    var d := SignEnd(s, k);
    var p := DigitRunEnd(s, d);
    UnsignedSlice(s, k, e);
    var u := s[d..e];
    assert u[p - d] == '.';
    assert u[..p - d] == s[d..p];
    assert u[p - d + 1..] == s[p + 1..e];
    assert 0 <= p - d < |u| - 1;
  }

  /** The dot of a float, located in the text after the sign. */
  lemma UnsignedDot(t: string) returns (p: nat)
    requires IsFloat(t)
    ensures var u := Unsigned(t); p < |u| - 1 && u[p] == '.' && AllDigits(u[..p]) && AllDigits(u[p + 1..])
  {
    var u := Unsigned(t);
    p :| 0 <= p < |u| - 1 && u[p] == '.' && AllDigits(u[..p]) && AllDigits(u[p + 1..]);
  }

  lemma SliceAround(s: string, d: nat, e: nat, p: nat)
    requires d + p < e <= |s|
    ensures s[d..e][..p] == s[d..d + p] && s[d..e][p] == s[d + p] && s[d..e][p + 1..] == s[d + p + 1..e]
  {
  }

  /** The position of the dot in a float match. */
  lemma FloatDot(s: string, k: nat, e: nat) returns (q: nat)
    requires FloatAt(s, k, e)
    ensures SignEnd(s, k) <= q && q + 1 < e && s[q] == '.'
    ensures AllDigits(s[SignEnd(s, k)..q]) && AllDigits(s[q + 1..e])
  {
    var p := UnsignedDot(s[k..e]);
    var d := SignEnd(s, k);
    UnsignedSlice(s, k, e);
    SliceAround(s, d, e, p);
    q := d + p;
  }

  lemma FloatEndComplete(s: string, k: nat, e: nat)
    requires FloatAt(s, k, e)
    ensures FloatEnd(s, k) == Some(e)
  {
    var q := FloatDot(s, k, e);
    DigitRunEndUnique(s, SignEnd(s, k), q);
    DigitRunEndUnique(s, q + 1, e);
  }

  /** The float recogniser finds exactly the float matches. */
  lemma FloatEndIsFloatAt(s: string, k: nat, e: nat)
    requires k <= |s|
    ensures FloatEnd(s, k) == Some(e) <==> FloatAt(s, k, e)
  {
    if FloatEnd(s, k) == Some(e) {
      FloatEndSound(s, k);
    }
    if FloatAt(s, k, e) {
      FloatEndComplete(s, k, e);
    }
  }

  // ---------------------------------------------------------------------------------
  // Whole lines

  /** The three literal characters that close the pattern: ", ] and ;. */
  const Closing: string := "\"];"

  predicate ClosingAt(s: string, e: nat) { e + 3 <= |s| && s[e..e + 3] == Closing }

  /** The pattern matches s from index 0 with group boundaries m; the fillers `.*` take
      whatever lies between the groups, and text after the closing `;` is allowed. */
  predicate IsMatch(s: string, m: Shape) {
    && |s| > 0 && s[0] == '"'
    && QuadAt(s, 1, m.srcEnd)
    && m.srcEnd <= m.destStart && QuadAt(s, m.destStart, m.destEnd)
    && m.destEnd <= m.qualStart && FloatAt(s, m.qualStart, m.qualEnd)
    && ClosingAt(s, m.qualEnd)
  }

  /** rx.indexIn(s) == 0: some match of the pattern starts at index 0. */
  ghost predicate MatchesAtStart(s: string) {
    exists m :: IsMatch(s, m)
  }

  /** The least k in [lo, hi] for which p holds: the leftmost position a search tries
      first and succeeds at. */
  function FirstFrom(p: nat -> bool, lo: nat, hi: nat): (r: Option<nat>)
    requires lo <= hi
    ensures r.Some? ==> lo <= r.value <= hi && p(r.value)
    ensures r.Some? ==> forall k :: lo <= k < r.value ==> !p(k)
    ensures r.None? ==> forall k :: lo <= k <= hi ==> !p(k)
    decreases hi - lo
  {
    if p(lo) then Some(lo)
    else if lo == hi then None
    else FirstFrom(p, lo + 1, hi)
  }

  /** The greatest k in [lo, hi] for which p holds: the longest match a search keeps. */
  function LastFrom(p: nat -> bool, lo: nat, hi: nat): (r: Option<nat>)
    requires lo <= hi
    ensures r.Some? ==> lo <= r.value <= hi && p(r.value)
    ensures r.Some? ==> forall k :: r.value < k <= hi ==> !p(k)
    ensures r.None? ==> forall k :: lo <= k <= hi ==> !p(k)
    decreases hi - lo
  {
    if p(hi) then Some(hi)
    else if lo == hi then None
    else LastFrom(p, lo, hi - 1)
  }

  /** A float group from k to e, followed by the closing characters. */
  predicate TailAt(s: string, k: nat, e: nat) {
    k <= |s| && FloatEnd(s, k) == Some(e) && ClosingAt(s, e)
  }

  /** The earliest k >= k0 where a float group ending at e, with the closing characters
      after it, starts. */
  function FindTail(s: string, k0: nat, e: nat): (r: Option<nat>)
    requires k0 <= |s|
    ensures r.Some? ==> k0 <= r.value <= |s| && TailAt(s, r.value, e)
    ensures r.Some? ==> forall k :: k0 <= k < r.value ==> !TailAt(s, k, e)
    ensures r.None? ==> forall k :: k0 <= k <= |s| ==> !TailAt(s, k, e)
  {
    var p := (k: nat) => TailAt(s, k, e);
    var r := FirstFrom(p, k0, |s|);
    assert forall k: nat :: p(k) == TailAt(s, k, e);
    r
  }

  /** A destination quad at j after which a float group ending at e and the closing
      characters match. */
  predicate DestAt(s: string, j: nat, e: nat) {
    j <= |s| && QuadEnd(s, j).Some? && FindTail(s, QuadEnd(s, j).value, e).Some?
  }

  /** The earliest j >= j0 where such a destination quad starts. */
  function FindDest(s: string, j0: nat, e: nat): (r: Option<nat>)
    requires j0 <= |s|
    ensures r.Some? ==> j0 <= r.value <= |s| && DestAt(s, r.value, e)
    ensures r.Some? ==> forall j :: j0 <= j < r.value ==> !DestAt(s, j, e)
    ensures r.None? ==> forall j :: j0 <= j <= |s| ==> !DestAt(s, j, e)
  {
    var p := (j: nat) => DestAt(s, j, e);
    var r := FirstFrom(p, j0, |s|);
    assert forall j: nat :: p(j) == DestAt(s, j, e);
    r
  }

  /** After a source quad ending at srcEnd, the rest of the pattern can match with its
      float group ending at e. */
  predicate EndsAt(s: string, srcEnd: nat, e: nat) {
    srcEnd <= |s| && FindDest(s, srcEnd, e).Some?
  }

  /** The latest end of the float group over all matches: the longest match. */
  function FindEnd(s: string, srcEnd: nat): (r: Option<nat>)
    requires srcEnd <= |s|
    ensures r.Some? ==> r.value <= |s| && EndsAt(s, srcEnd, r.value)
    ensures r.Some? ==> forall e :: r.value < e <= |s| ==> !EndsAt(s, srcEnd, e)
    ensures r.None? ==> forall e :: 0 <= e <= |s| ==> !EndsAt(s, srcEnd, e)
  {
    var p := (e: nat) => EndsAt(s, srcEnd, e);
    var r := LastFrom(p, 0, |s|);
    assert forall e: nat :: p(e) == EndsAt(s, srcEnd, e);
    r
  }

  /** The match the widget reads its captures from, as QRegExp chooses it: the longest
      match from index 0 (the latest end of the float group, so the greedy fillers reach
      the last closing characters that can end a match), and among the longest matches the
      one whose destination quad starts earliest, then whose float group starts earliest.
      The source quad right after the opening quote is forced. */
  function Locate(s: string): (r: Option<Shape>)
    ensures r.Some? ==> r.value.qualEnd + 3 <= |s|
    ensures r.Some? ==> 1 <= r.value.srcEnd <= r.value.destStart <= r.value.destEnd <= r.value.qualStart < r.value.qualEnd
  {
    if |s| == 0 || s[0] != '"' then None
    else
      match QuadEnd(s, 1)
      case None => None
      case Some(srcEnd) =>
        match FindEnd(s, srcEnd)
        case None => None
        case Some(qualEnd) =>
          var destStart := FindDest(s, srcEnd, qualEnd).value;
          var destEnd := QuadEnd(s, destStart).value;
          Some(Shape(srcEnd, destStart, destEnd, FindTail(s, destEnd, qualEnd).value, qualEnd))
  }

  /** The QRegExp captures 1, 2 and 3 of a line, when the line is accepted. */
  function Capture(s: string): (r: Option<Link>)
    ensures r.Some? ==> |s| > 0 && s[0] == '"'
    ensures r.Some? <==> Locate(s).Some?
  {
    match Locate(s)
    case None => None
    case Some(m) => Some(Link(s[1..m.srcEnd], s[m.destStart..m.destEnd], s[m.qualStart..m.qualEnd]))
  }

  /** A match described through the recognisers instead of the grammar predicates. */
  predicate Recognised(s: string, m: Shape) {
    && |s| > 0 && s[0] == '"'
    && QuadEnd(s, 1) == Some(m.srcEnd)
    && m.srcEnd <= m.destStart <= |s| && QuadEnd(s, m.destStart) == Some(m.destEnd)
    && m.destEnd <= m.qualStart <= |s| && FloatEnd(s, m.qualStart) == Some(m.qualEnd)
    && ClosingAt(s, m.qualEnd)
  }

  lemma RecognisedIsMatch(s: string, m: Shape)
    ensures Recognised(s, m) <==> IsMatch(s, m)
  {
    if 1 <= |s| && m.destStart <= |s| && m.qualStart <= |s| {
      QuadEndIsQuadAt(s, 1, m.srcEnd);
      QuadEndIsQuadAt(s, m.destStart, m.destEnd);
      FloatEndIsFloatAt(s, m.qualStart, m.qualEnd);
    }
  }

  lemma LocateRecognised(s: string)
    requires Locate(s).Some?
    ensures Recognised(s, Locate(s).value)
  {
  }

  /** How the chosen match compares with any other: the same source quad, a float group
      ending no earlier, and for the same end a destination quad starting no later, then
      for the same destination a float group starting no later. */
  predicate ChosenOver(m: Shape, m': Shape) {
    && m.srcEnd == m'.srcEnd
    && m'.qualEnd <= m.qualEnd
    && (m.qualEnd == m'.qualEnd ==> m.destStart <= m'.destStart)
    && (m.qualEnd == m'.qualEnd && m.destStart == m'.destStart ==>
          m.destEnd == m'.destEnd && m.qualStart <= m'.qualStart)
    && (m.qualEnd == m'.qualEnd && m.destStart == m'.destStart && m.qualStart == m'.qualStart ==> m == m')
  }

  lemma LongestRecognised(s: string, m': Shape)
    requires Recognised(s, m')
    ensures Locate(s).Some? && ChosenOver(Locate(s).value, m')
  {
    assert TailAt(s, m'.qualStart, m'.qualEnd);
    assert FindTail(s, m'.destEnd, m'.qualEnd).Some?;
    assert DestAt(s, m'.destStart, m'.qualEnd);
    assert EndsAt(s, m'.srcEnd, m'.qualEnd);
    var srcEnd := m'.srcEnd;
    var qualEnd := FindEnd(s, srcEnd).value;
    assert m'.qualEnd <= qualEnd;
    var destStart := FindDest(s, srcEnd, qualEnd).value;
    var destEnd := QuadEnd(s, destStart).value;
    var qualStart := FindTail(s, destEnd, qualEnd).value;
    assert Locate(s) == Some(Shape(srcEnd, destStart, destEnd, qualStart, qualEnd));
  }

  /** What Locate returns is a match of the pattern. */
  lemma LocateSound(s: string)
    requires Locate(s).Some?
    ensures IsMatch(s, Locate(s).value)
  {
    LocateRecognised(s);
    RecognisedIsMatch(s, Locate(s).value);
  }

  /** Every match of the pattern is found, and the one Locate returns is the longest,
      then among the longest the one with the earliest destination quad, then the one with
      the earliest float group; the source quad and the end of the destination are forced. */
  lemma LocateLongest(s: string, m': Shape)
    requires IsMatch(s, m')
    ensures Locate(s).Some? && ChosenOver(Locate(s).value, m')
  {
    RecognisedIsMatch(s, m');
    LongestRecognised(s, m');
  }

  /** A line yields a capture exactly when the pattern matches it from index 0. */
  lemma CaptureIffMatch(s: string)
    ensures Capture(s).Some? <==> MatchesAtStart(s)
  {
    if Capture(s).Some? {
      LocateSound(s);
    }
    if MatchesAtStart(s) {
      var m' :| IsMatch(s, m');
      LocateLongest(s, m');
    }
  }

  /** Each octet of a dotted quad is one to three digits with a value of at most 255. */
  lemma DottedQuadOctetsAreBytes(t: string)
    requires IsDottedQuad(t)
    ensures forall k :: 0 <= k < 4 ==>
      var o := Split(t, '.')[k]; 1 <= |o| <= 3 && AllDigits(o) && DecimalValue(o) <= 255
  {
    forall k | 0 <= k < 4
      ensures var o := Split(t, '.')[k]; 1 <= |o| <= 3 && AllDigits(o) && DecimalValue(o) <= 255
    {
      OctetIsByte(Split(t, '.')[k]);
    }
  }

  /** The source capture of an accepted line is the one dotted quad that starts right
      after the opening quote; the character after it is not a digit. */
  lemma CapturedSource(s: string)
    requires Capture(s).Some?
    ensures var l := Capture(s).value; var m := Locate(s).value;
      && QuadAt(s, 1, m.srcEnd) && l.source == s[1..m.srcEnd] && IsDottedQuad(l.source)
      && !IsDigit(s[m.srcEnd])
      && (forall e :: QuadAt(s, 1, e) ==> e == m.srcEnd)
  {
    var m := Locate(s).value;
    LocateRecognised(s);
    QuadEndIsQuadAt(s, 1, m.srcEnd);
    forall e | QuadAt(s, 1, e) ensures e == m.srcEnd {
      QuadAtUnique(s, 1, e, m.srcEnd);
    }
  }

  /** The destination capture of an accepted line is a dotted quad, not followed by a
      digit, that starts at or after the end of the source. */
  lemma CapturedDest(s: string)
    requires Capture(s).Some?
    ensures var l := Capture(s).value; var m := Locate(s).value;
      && m.srcEnd <= m.destStart && QuadAt(s, m.destStart, m.destEnd)
      && l.dest == s[m.destStart..m.destEnd] && IsDottedQuad(l.dest) && !IsDigit(s[m.destEnd])
  {
    var m := Locate(s).value;
    LocateRecognised(s);
    QuadEndIsQuadAt(s, m.destStart, m.destEnd);
  }

  /** The quality capture of an accepted line is a float that starts at or after the end
      of the destination and is immediately followed by the characters `"];`. */
  lemma CapturedQuality(s: string)
    requires Capture(s).Some?
    ensures var l := Capture(s).value; var m := Locate(s).value;
      && m.destEnd <= m.qualStart && FloatAt(s, m.qualStart, m.qualEnd)
      && l.quality == s[m.qualStart..m.qualEnd] && IsFloat(l.quality)
      && s[m.qualEnd..m.qualEnd + 3] == Closing
  {
    var m := Locate(s).value;
    LocateRecognised(s);
    CaptureOfLocate(s, m);
    assert FloatEnd(s, m.qualStart) == Some(m.qualEnd);
    FloatEndIsFloatAt(s, m.qualStart, m.qualEnd);
  }

  // ---------------------------------------------------------------------------------
  // The line format the pattern was written for

  /** A link written in the form the mesh daemon reports it (MeshStatus.cc:81):
      "SOURCE" -> "DEST"[label="QUALITY"]; */
  function FormatLink(l: Link): string {
    "\"" + l.source + "\" -> \"" + l.dest + "\"[label=\"" + l.quality + Closing
  }

  /** No quad starts at a character that is not a digit. */
  lemma NoQuadAtNonDigit(s: string, j: nat)
    requires j < |s| && !IsDigit(s[j])
    ensures QuadEnd(s, j) == None
  {
    assert DigitRunEnd(s, j) == j;
  }

  /** No float starts at a character that is neither a sign, a digit nor a dot. */
  lemma NoFloatAtOther(s: string, k: nat)
    requires k < |s| && !IsSign(s[k]) && !IsDigit(s[k]) && s[k] != '.'
    ensures FloatEnd(s, k) == None
  {
    assert SignEnd(s, k) == k && DigitRunEnd(s, k) == k;
  }

  const Arrow: string := "\" -> \""
  const LabelOpen: string := "\"[label=\""

  /** Where the pieces of a formatted link lie. */
  function FormatShape(l: Link): Shape {
    var srcEnd := 1 + |l.source|;
    var destStart := srcEnd + |Arrow|;
    var destEnd := destStart + |l.dest|;
    var qualStart := destEnd + |LabelOpen|;
    Shape(srcEnd, destStart, destEnd, qualStart, qualStart + |l.quality|)
  }

  lemma FormatLinkPieces(l: Link)
    ensures var s := FormatLink(l); var m := FormatShape(l);
      && |s| == m.qualEnd + 3 && s[0] == '"'
      && s[1..m.srcEnd] == l.source
      && s[m.srcEnd..m.destStart] == Arrow
      && s[m.destStart..m.destEnd] == l.dest
      && s[m.destEnd..m.qualStart] == LabelOpen
      && s[m.qualStart..m.qualEnd] == l.quality
      && s[m.qualEnd..] == Closing
      && s[m.srcEnd] == '"' && s[m.destEnd] == '"' && s[m.qualEnd] == '"'
      && ClosingAt(s, m.qualEnd)
  {
    var s := FormatLink(l);
    var m := FormatShape(l);
    assert s == ["\""[0]] + l.source + Arrow + l.dest + LabelOpen + l.quality + Closing;
    assert s[m.srcEnd] == s[m.srcEnd..m.destStart][0];
    assert s[m.destEnd] == s[m.destEnd..m.qualStart][0];
    assert s[m.qualEnd] == s[m.qualEnd..][0];
    assert s[m.qualEnd..m.qualEnd + 3] == s[m.qualEnd..];
  }

  /** A line that starts with a formatted link agrees with it on every piece. */
  lemma FormatLinkPrefix(l: Link, t: string)
    requires FormatLink(l) <= t
    ensures var m := FormatShape(l);
      && m.qualEnd + 3 == |FormatLink(l)| <= |t| && t[0] == '"'
      && t[1..m.srcEnd] == l.source
      && t[m.destStart..m.destEnd] == l.dest
      && t[m.qualStart..m.qualEnd] == l.quality
      && t[m.srcEnd] == '"' && t[m.destEnd] == '"' && t[m.qualEnd] == '"'
      && ClosingAt(t, m.qualEnd)
      && (forall j :: m.srcEnd <= j < m.destStart ==> t[j] == Arrow[j - m.srcEnd])
      && (forall k :: m.destEnd <= k < m.qualStart ==> t[k] == LabelOpen[k - m.destEnd])
  {
    var s := FormatLink(l);
    var m := FormatShape(l);
    FormatLinkPieces(l);
    assert s == t[..|s|];
    assert t[1..m.srcEnd] == s[1..m.srcEnd];
    assert t[m.destStart..m.destEnd] == s[m.destStart..m.destEnd];
    assert t[m.qualStart..m.qualEnd] == s[m.qualStart..m.qualEnd];
    assert t[m.qualEnd..m.qualEnd + 3] == s[m.qualEnd..];
    forall j | m.srcEnd <= j < m.destStart ensures t[j] == Arrow[j - m.srcEnd] {
      assert t[j] == s[j] == s[m.srcEnd..m.destStart][j - m.srcEnd];
    }
    forall k | m.destEnd <= k < m.qualStart ensures t[k] == LabelOpen[k - m.destEnd] {
      assert t[k] == s[k] == s[m.destEnd..m.qualStart][k - m.destEnd];
    }
  }

  lemma QuadEndOfPiece(s: string, i: nat, e: nat, t: string)
    requires i <= e < |s| && s[i..e] == t && IsDottedQuad(t) && !IsDigit(s[e])
    ensures QuadEnd(s, i) == Some(e)
  {
    QuadEndIsQuadAt(s, i, e);
  }

  lemma FloatEndOfPiece(s: string, k: nat, e: nat, t: string)
    requires k <= e < |s| && s[k..e] == t && IsFloat(t) && s[e] == '"'
    ensures FloatEnd(s, k) == Some(e)
  {
    FloatEndIsFloatAt(s, k, e);
  }

  /** The three groups match where the pieces of a formatted link were written, also
      when more text follows it. */
  lemma FormatLinkGroups(l: Link, t: string)
    requires IsDottedQuad(l.source) && IsDottedQuad(l.dest) && IsFloat(l.quality)
    requires FormatLink(l) <= t
    ensures var m := FormatShape(l);
      && QuadEnd(t, 1) == Some(m.srcEnd)
      && QuadEnd(t, m.destStart) == Some(m.destEnd)
      && FloatEnd(t, m.qualStart) == Some(m.qualEnd)
  {
    var m := FormatShape(l);
    FormatLinkPrefix(l, t);
    QuadEndOfPiece(t, 1, m.srcEnd, l.source);
    QuadEndOfPiece(t, m.destStart, m.destEnd, l.dest);
    FloatEndOfPiece(t, m.qualStart, m.qualEnd, l.quality);
  }

  /** Nothing in the literal text between the groups of a formatted link starts a group. */
  lemma FormatLinkFillers(l: Link, t: string)
    requires FormatLink(l) <= t
    ensures var m := FormatShape(l);
      && m.qualEnd + 3 <= |t|
      && (forall j :: m.srcEnd <= j < m.destStart ==> QuadEnd(t, j) == None)
      && (forall k :: m.destEnd <= k < m.qualStart ==> FloatEnd(t, k) == None)
  {
    var m := FormatShape(l);
    FormatLinkPrefix(l, t);
    forall j | m.srcEnd <= j < m.destStart ensures QuadEnd(t, j) == None {
      NoQuadAtNonDigit(t, j);
    }
    forall k | m.destEnd <= k < m.qualStart ensures FloatEnd(t, k) == None {
      NoFloatAtOther(t, k);
    }
  }

  /** The closing characters follow the float group of any match end. */
  lemma EndsAtClosing(s: string, srcEnd: nat, e: nat)
    requires EndsAt(s, srcEnd, e)
    ensures ClosingAt(s, e)
  {
    var j := FindDest(s, srcEnd, e).value;
    assert DestAt(s, j, e);
    var k := FindTail(s, QuadEnd(s, j).value, e).value;
    assert TailAt(s, k, e);
  }

  /** Locate picks a recognised match that reaches the end of the line, when for its end
      no destination quad starts earlier and, after that destination, no float group
      starts earlier. */
  lemma LocateIsChosen(s: string, m: Shape)
    requires Recognised(s, m) && |s| == m.qualEnd + 3
    requires forall j :: m.srcEnd <= j < m.destStart ==> !DestAt(s, j, m.qualEnd)
    requires forall k :: m.destEnd <= k < m.qualStart ==> !TailAt(s, k, m.qualEnd)
    ensures Locate(s) == Some(m)
  {
    FindTailIs(s, m.destEnd, m.qualStart, m.qualEnd);
    FindDestIs(s, m.srcEnd, m.destStart, m.qualEnd);
    FindEndIs(s, m.srcEnd, m.qualEnd);
  }

  /** A match end at the last place the closing characters fit is the latest one. */
  lemma FindEndIs(s: string, srcEnd: nat, e: nat)
    requires EndsAt(s, srcEnd, e) && |s| == e + 3
    ensures FindEnd(s, srcEnd) == Some(e)
  {
    var r := FindEnd(s, srcEnd);
    assert r.Some?;
    EndsAtClosing(s, srcEnd, r.value);
    assert e <= r.value;
  }

  lemma FindTailIs(s: string, k0: nat, k: nat, e: nat)
    requires k0 <= k <= |s| && TailAt(s, k, e)
    requires forall k' :: k0 <= k' < k ==> !TailAt(s, k', e)
    ensures FindTail(s, k0, e) == Some(k)
  {
  }

  lemma FindDestIs(s: string, j0: nat, j: nat, e: nat)
    requires j0 <= j <= |s| && DestAt(s, j, e)
    requires forall j' :: j0 <= j' < j ==> !DestAt(s, j', e)
    ensures FindDest(s, j0, e) == Some(j)
  {
  }

  /** Formatting a link and capturing the line gives the link back: the captures land on
      the source, the destination and the quality as written. */
  lemma FormatLinkRoundTrip(l: Link)
    requires IsDottedQuad(l.source) && IsDottedQuad(l.dest) && IsFloat(l.quality)
    ensures Capture(FormatLink(l)) == Some(l)
  {
    var s := FormatLink(l);
    var m := FormatShape(l);
    FormatLinkPieces(l);
    FormatLinkGroups(l, s);
    FormatLinkFillers(l, s);
    assert Recognised(s, m);
    LocateIsChosen(s, m);
    CaptureOfLocate(s, m);
  }

  /** A float group cannot run past a quote character. */
  lemma FloatStopsAtQuote(s: string, k: nat, i: nat)
    requires k <= i < |s| && s[i] == '"' && FloatEnd(s, k).Some?
    ensures FloatEnd(s, k).value <= i
  {
  }

  /** The text a second label adds after a formatted link: a space, a quote, another
      float and the closing characters. */
  function SecondTail(q: string): string {
    " \"" + q + Closing
  }

  /** s ends with the float q at k followed by the closing characters. */
  predicate TailFrom(s: string, k: nat, q: string) {
    && |s| == k + |q| + 3 && s[k..k + |q|] == q
    && s[k + |q|] == '"' && ClosingAt(s, k + |q|)
  }

  lemma SecondTailPieces(l: Link, q: string)
    ensures var f := FormatLink(l); var s := f + SecondTail(q);
      && f <= s && s[|f|] == ' ' && s[|f| + 1] == '"' && TailFrom(s, |f| + 2, q)
  {
    var f := FormatLink(l);
    var s := f + SecondTail(q);
    var k := |f| + 2;
    assert s == f + [' ', '"'] + q + Closing;
    assert s[k + |q|..k + |q| + 3] == Closing;
    assert s[k + |q|] == Closing[0];
  }

  lemma TwoTailSecondFloat(s: string, k: nat, q: string)
    requires IsFloat(q) && TailFrom(s, k, q)
    ensures FloatEnd(s, k) == Some(k + |q|)
  {
    FloatEndOfPiece(s, k, k + |q|, q);
  }

  /** A formatted link followed by a second tail is recognised with the quads of the link
      and the second float. */
  lemma TwoTailRecognised(l: Link, s: string, k: nat, e: nat)
    requires IsDottedQuad(l.source) && IsDottedQuad(l.dest) && IsFloat(l.quality)
    requires FormatLink(l) <= s && k == |FormatLink(l)| + 2 && k <= |s|
    requires FloatEnd(s, k) == Some(e) && ClosingAt(s, e)
    ensures var m0 := FormatShape(l); var m := Shape(m0.srcEnd, m0.destStart, m0.destEnd, k, e);
      Recognised(s, m)
      && s[1..m.srcEnd] == l.source && s[m.destStart..m.destEnd] == l.dest
  {
    FormatLinkPrefix(l, s);
    FormatLinkGroups(l, s);
  }

  /** Between the destination and a second float at k, no float group that ends past the
      first float can start: the first float stops at its quote, and the literal
      characters start none. */
  lemma TwoTailFillers(l: Link, s: string, k: nat, e: nat)
    requires FormatLink(l) <= s && k == |FormatLink(l)| + 2 && k <= |s|
    requires s[k - 2] == ' ' && s[k - 1] == '"' && FormatShape(l).qualEnd < e
    ensures var m0 := FormatShape(l);
      && (forall j :: m0.srcEnd <= j < m0.destStart ==> !DestAt(s, j, e))
      && (forall k' :: m0.destEnd <= k' < k ==> !TailAt(s, k', e))
  {
    var m0 := FormatShape(l);
    FormatLinkPrefix(l, s);
    FormatLinkFillers(l, s);
    forall k' | m0.destEnd <= k' < k ensures !TailAt(s, k', e) {
      if m0.qualStart <= k' <= m0.qualEnd && FloatEnd(s, k').Some? {
        FloatStopsAtQuote(s, k', m0.qualEnd);
      } else if m0.qualEnd < k' {
        if k' < m0.qualEnd + 3 {
          assert s[k'] == s[m0.qualEnd..m0.qualEnd + 3][k' - m0.qualEnd];
        }
        NoFloatAtOther(s, k');
      }
    }
  }

  /** On a line with a second float group followed by the closing characters after a
      formatted link, the greedy fillers reach the second one: its float is the quality
      capture, and the source and destination stay those of the link. */
  lemma LaterTailWins(l: Link, q: string)
    requires IsDottedQuad(l.source) && IsDottedQuad(l.dest) && IsFloat(l.quality) && IsFloat(q)
    ensures Capture(FormatLink(l) + SecondTail(q)) == Some(Link(l.source, l.dest, q))
  {
    var s := FormatLink(l) + SecondTail(q);
    var k := |FormatLink(l)| + 2;
    var e := k + |q|;
    var m0 := FormatShape(l);
    var m := Shape(m0.srcEnd, m0.destStart, m0.destEnd, k, e);
    SecondTailPieces(l, q);
    TwoTailSecondFloat(s, k, q);
    TwoTailRecognised(l, s, k, e);
    TwoTailFillers(l, s, k, e);
    LocateIsChosen(s, m);
    CaptureOfLocate(s, m);
  }

  lemma CaptureOfLocate(s: string, m: Shape)
    requires Locate(s) == Some(m)
    ensures Capture(s) == Some(Link(s[1..m.srcEnd], s[m.destStart..m.destEnd], s[m.qualStart..m.qualEnd]))
  {
  }

  /** Four octets joined by dots make a dotted quad. */
  lemma JoinedOctetsAreQuad(a: string, b: string, c: string, d: string)
    requires IsOctet(a) && IsOctet(b) && IsOctet(c) && IsOctet(d)
    ensures IsDottedQuad(a + "." + b + "." + c + "." + d)
  {
    var parts := [a, b, c, d];
    forall k | 0 <= k < 4 ensures '.' !in parts[k] {
      OctetIsByte(parts[k]);
      DigitsHaveNoDot(parts[k]);
    }
    assert Join(parts[3..], '.') == d;
    assert Join(parts[2..], '.') == c + "." + d;
    assert Join(parts[1..], '.') == b + "." + c + "." + d;
    assert Join(parts, '.') == a + "." + b + "." + c + "." + d;
    SplitJoin(parts, '.');
  }

  /** A line as the mesh daemon reports one link. */
  const SampleLine: string := "\"10.0.0.1\" -> \"10.0.0.2\"[label=\"0.987\"];"

  const SampleLink: Link := Link("10.0.0.1", "10.0.0.2", "0.987")

  /** The sample line yields the link (10.0.0.1, 10.0.0.2, 0.987). */
  lemma SampleLineCapture()
    ensures Capture(SampleLine) == Some(SampleLink)
  {
    SampleGroups();
    SampleFormat();
    FormatLinkRoundTrip(SampleLink);
  }

  lemma SampleFormat()
    ensures FormatLink(SampleLink) == SampleLine
  {
  }

  lemma SampleGroups()
    ensures IsDottedQuad("10.0.0.1") && IsDottedQuad("10.0.0.2") && IsFloat("0.987")
  {
    SampleQuad("10", "1", "10.0.0.1");
    SampleQuad("10", "2", "10.0.0.2");
    SampleFloat();
  }

  lemma SampleQuad(a: string, d: string, t: string)
    requires IsOctet(a) && IsOctet(d) && t == a + ".0.0." + d
    ensures IsDottedQuad(t)
  {
    assert IsOctet("0");
    JoinedOctetsAreQuad(a, "0", "0", d);
    assert a + "." + "0" + "." + "0" + "." + d == t;
  }

  lemma SampleFloat()
    ensures IsFloat("0.987")
  {
    var t := "0.987";
    assert Unsigned(t) == t && t[1] == '.' && t[..1] == "0" && t[2..] == "987";
  }
}
