/** The dimension-string parser of script.js lines 25-29: after replacing the
    separator substitutes with 'x', find the leftmost match of
    (\d{2,})\s*x\s*(\d{2,}) and read both groups as decimal numbers. */
module Dimensions {
  import opened Options

  datatype Dims = Dims(w: nat, h: nat)

  /** \d: an ASCII decimal digit. */
  predicate IsDigit(c: char)
  {
    '0' <= c <= '9'
  }

  /** The characters a JavaScript regular expression's \s matches. */
  const Spaces: set<char> := {
    '\t', '\n', '\U{000B}', '\U{000C}', '\r', ' ', '\U{00A0}', '\U{1680}',
    '\U{2000}', '\U{2001}', '\U{2002}', '\U{2003}', '\U{2004}', '\U{2005}',
    '\U{2006}', '\U{2007}', '\U{2008}', '\U{2009}', '\U{200A}', '\U{2028}',
    '\U{2029}', '\U{202F}', '\U{205F}', '\U{3000}', '\U{FEFF}'}

  /** The two character classes of the pattern: \d, and white space drawn from
      a set. The matcher is stated for any white-space set that contains neither
      a digit nor 'x'; the parser instantiates it with `Spaces`. */
  datatype Class = Digit | Space(sp: set<char>)

  predicate In(c: char, cls: Class)
  {
    match cls
    case Digit => IsDigit(c)
    case Space(sp) => c in sp
  }

  /** The white-space set neither contains a digit nor the separator. */
  ghost predicate Separated(sp: set<char>)
  {
    'x' !in sp && forall c :: c in sp ==> !IsDigit(c)
  }

  lemma SpacesSeparated()
    ensures Separated(Spaces)
  {
  }

  /** The substitute class as the source file spells it: the UTF-8 bytes of the
      multiplication sign U+00D7 read back as Windows-1252 (U+00C3, a capital A
      with tilde, and U+2014, an em dash), plus 'X'. */
  const WrittenSubstitutes: set<char> := {'\U{00C3}', '\U{2014}', 'X'}

  /** The class the authors evidently meant: the multiplication sign and 'X'. */
  const IntendedSubstitutes: set<char> := {'\U{00D7}', 'X'}

  /** Every substitute character replaced by 'x'. */
  function Normalize(subst: set<char>, s: string): string
  {
    seq(|s|, k requires 0 <= k < |s| => if s[k] in subst then 'x' else s[k])
  }

  /** The normalised string has the input's length, holds 'x' exactly where
      the input held 'x' or a substitute, and keeps every other character. */
  lemma NormalizeReplacesSubstitutes(subst: set<char>, s: string)
    ensures |Normalize(subst, s)| == |s|
    ensures forall i :: 0 <= i < |s| ==>
              (Normalize(subst, s)[i] == 'x' <==> s[i] == 'x' || s[i] in subst)
    ensures forall i :: 0 <= i < |s| && s[i] !in subst ==> Normalize(subst, s)[i] == s[i]
  {
  }

  /** The length of the longest run of characters of `cls` starting at p: what a
      greedy `cls*` consumes there. */
  function Run(t: string, p: nat, cls: Class): (k: nat)
    requires p <= |t|
    ensures p + k <= |t|
    ensures forall q :: p <= q < p + k ==> In(t[q], cls)
    ensures p + k == |t| || !In(t[p + k], cls)
    decreases |t| - p
  {
    if p < |t| && In(t[p], cls) then 1 + Run(t, p + 1, cls) else 0
  }

  /** The number a string of decimal digits denotes, as unary plus reads a
      captured group. */
  function Value(ds: string): nat
  {
    if |ds| == 0 then 0
    else
      var d := ds[|ds| - 1] as int - '0' as int;
      Value(ds[..|ds| - 1]) * 10 + (if 0 <= d <= 9 then d else 0)
  }

  function Pow10(n: nat): nat
  {
    if n == 0 then 1 else 10 * Pow10(n - 1)
  }

  /** A group of n digits denotes a number below 10^n, and a group of zeros
      denotes 0 whatever its length (so "00x00" reads as 0 by 0). */
  lemma {:induction false} ValueBounds(ds: string)
    ensures Value(ds) < Pow10(|ds|)
    ensures (forall i :: 0 <= i < |ds| ==> ds[i] == '0') ==> Value(ds) == 0
  {
    if |ds| > 0 {
      var init := ds[..|ds| - 1];
      ValueBounds(init);
      assert forall i :: 0 <= i < |init| ==> init[i] == ds[i];
    }
  }

  /** The regular expression matches at p, white space drawn from sp, consuming
      k1 digits, s1 spaces, the 'x', s2 spaces and k2 digits. This is the
      pattern itself, for any choice of the counts. */
  ghost predicate PatternAt(sp: set<char>, t: string, p: nat, k1: nat, s1: nat, s2: nat, k2: nat)
  {
    var x := p + k1 + s1;
    var q := x + 1 + s2;
    && q + k2 <= |t|
    && k1 >= 2 && k2 >= 2
    && (forall i :: p <= i < p + k1 ==> IsDigit(t[i]))
    && (forall i :: p + k1 <= i < x ==> t[i] in sp)
    && t[x] == 'x'
    && (forall i :: x + 1 <= i < q ==> t[i] in sp)
    && (forall i :: q <= i < q + k2 ==> IsDigit(t[i]))
  }

  /** Where the two captured digit groups lie: t[w..w+wn] and t[h..h+hn]. */
  datatype Groups = Groups(w: nat, wn: nat, h: nat, hn: nat)

  /** The match the engine reports at p, every quantifier greedy, given by the
      positions of its two groups. */
  function MatchAt(sp: set<char>, t: string, p: nat): (r: Option<Groups>)
    requires p <= |t|
    ensures r.Some? ==> var g := r.value;
      g.w == p && 2 <= g.wn && g.w + g.wn < g.h && 2 <= g.hn && g.h + g.hn <= |t|
  {
    var k1 := Run(t, p, Digit);
    var x := p + k1 + Run(t, p + k1, Space(sp));
    if k1 < 2 || x == |t| || t[x] != 'x' then None
    else
      var q := x + 1 + Run(t, x + 1, Space(sp));
      var k2 := Run(t, q, Digit);
      if k2 < 2 then None else Some(Groups(p, k1, q, k2))
  }

  /** A run of `cls` from p that is followed by a character outside `cls` (or
      by the end) is the greedy run. */
  lemma RunExact(t: string, p: nat, k: nat, cls: Class)
    requires p + k <= |t|
    requires forall i :: p <= i < p + k ==> In(t[i], cls)
    requires p + k == |t| || !In(t[p + k], cls)
    ensures Run(t, p, cls) == k
  {
  }

  /** Any run of `cls` from p is at most the greedy run. */
  lemma RunAtLeast(t: string, p: nat, k: nat, cls: Class)
    requires p + k <= |t|
    requires forall i :: p <= i < p + k ==> In(t[i], cls)
    ensures Run(t, p, cls) >= k
  {
  }

  /** When the greedy match at p succeeds, the pattern matches at p with its
      groups as counts, and the second group ends at the end of the string or
      before a non-digit. */
  lemma MatchAtSound(sp: set<char>, t: string, p: nat) returns (s1: nat, s2: nat)
    requires p <= |t|
    requires MatchAt(sp, t, p).Some?
    ensures var g := MatchAt(sp, t, p).value;
      && PatternAt(sp, t, p, g.wn, s1, s2, g.hn)
      && g.h == p + g.wn + s1 + 1 + s2
      && (g.h + g.hn == |t| || !IsDigit(t[g.h + g.hn]))
  {
    var k1 := Run(t, p, Digit);
    s1 := Run(t, p + k1, Space(sp));
    s2 := Run(t, p + k1 + s1 + 1, Space(sp));
  }

  /** Whenever the pattern matches at p for some choice of the counts, the
      greedy match at p succeeds: backtracking never finds a match that the
      greedy choice misses. Its first group is exactly the digits the pattern
      consumed, and its second group extends them as far as digits go. */
  lemma MatchAtComplete(sp: set<char>, t: string, p: nat, k1: nat, s1: nat, s2: nat, k2: nat)
    requires Separated(sp)
    requires PatternAt(sp, t, p, k1, s1, s2, k2)
    ensures MatchAt(sp, t, p).Some?
    ensures MatchAt(sp, t, p).value.wn == k1
    ensures MatchAt(sp, t, p).value.h == p + k1 + s1 + 1 + s2
    ensures MatchAt(sp, t, p).value.hn >= k2
  {
    CompleteRuns(sp, t, p, k1, s1, s2, k2);
    RunAtLeast(t, p + k1 + s1 + 1 + s2, k2, Digit);
  }

  /** Under a pattern match the three greedy runs before the second group
      consume exactly the counts the pattern used. */
  lemma CompleteRuns(sp: set<char>, t: string, p: nat, k1: nat, s1: nat, s2: nat, k2: nat)
    requires Separated(sp)
    requires PatternAt(sp, t, p, k1, s1, s2, k2)
    ensures Run(t, p, Digit) == k1
    ensures Run(t, p + k1, Space(sp)) == s1
    ensures Run(t, p + k1 + s1 + 1, Space(sp)) == s2
  {
    FirstGroupRun(sp, t, p, k1, s1, s2, k2);
    var x := p + k1 + s1;
    var q := x + 1 + s2;
    assert !In(t[x], Space(sp));
    RunExact(t, p + k1, s1, Space(sp));
    assert !In(t[q], Space(sp)) by { assert IsDigit(t[q]); }
    RunExact(t, x + 1, s2, Space(sp));
  }

  lemma FirstGroupRun(sp: set<char>, t: string, p: nat, k1: nat, s1: nat, s2: nat, k2: nat)
    requires Separated(sp)
    requires PatternAt(sp, t, p, k1, s1, s2, k2)
    ensures Run(t, p, Digit) == k1
  {
    assert !In(t[p + k1], Digit) by {
      if s1 == 0 { assert t[p + k1] == 'x'; } else { assert t[p + k1] in sp; }
    }
    RunExact(t, p, k1, Digit);
  }

  /** The greedy match at p succeeds exactly when the pattern matches at p for
      some choice of the counts. */
  lemma MatchAtIsPatternMatch(sp: set<char>, t: string, p: nat)
    requires Separated(sp)
    requires p <= |t|
    ensures MatchAt(sp, t, p).Some? <==>
            exists k1, s1, s2, k2 :: PatternAt(sp, t, p, k1, s1, s2, k2)
  {
    if MatchAt(sp, t, p).Some? {
      var s1, s2 := MatchAtSound(sp, t, p);
    }
    if exists k1, s1, s2, k2 :: PatternAt(sp, t, p, k1, s1, s2, k2) {
      var k1, s1, s2, k2 :| PatternAt(sp, t, p, k1, s1, s2, k2);
      MatchAtComplete(sp, t, p, k1, s1, s2, k2);
    }
  }

  /** The leftmost match at or after p, as String.prototype.match reports it. */
  function Scan(sp: set<char>, t: string, p: nat): (r: Option<Groups>)
    requires p <= |t|
    ensures r.Some? ==> r.value.w + r.value.wn <= |t| && r.value.h + r.value.hn <= |t|
    decreases |t| - p
  {
    if p == |t| then None
    else if MatchAt(sp, t, p).Some? then MatchAt(sp, t, p)
    else Scan(sp, t, p + 1)
  }

  /** Scan reports the match at the leftmost position from p where the greedy
      match succeeds, and reports none when it succeeds nowhere from p. */
  lemma {:induction false} ScanIsLeftmost(sp: set<char>, t: string, p: nat)
    requires p <= |t|
    ensures var r := Scan(sp, t, p);
      r.Some? ==> p <= r.value.w <= |t| && MatchAt(sp, t, r.value.w) == r
    ensures var r := Scan(sp, t, p);
      forall q :: p <= q <= |t| && (r.None? || q < r.value.w) ==> MatchAt(sp, t, q).None?
    decreases |t| - p
  {
    if p < |t| && MatchAt(sp, t, p).None? {
      ScanIsLeftmost(sp, t, p + 1);
    }
  }

  /** The number each captured group denotes. */
  function DimsOf(t: string, g: Groups): Dims
    requires g.w + g.wn <= |t| && g.h + g.hn <= |t|
  {
    Dims(Value(t[g.w..g.w + g.wn]), Value(t[g.h..g.h + g.hn]))
  }

  /** parseDims with the given substitute class. An empty string (the
      source's early return for a falsy argument) gives no pair. */
  function ParseDimsWith(subst: set<char>, s: string): (r: Option<Dims>)
    ensures |s| == 0 ==> r == None
  {
    FirstDims(Normalize(subst, s))
  }

  /** The pair the leftmost match in an already normalised string denotes. */
  function FirstDims(t: string): Option<Dims>
  {
    match Scan(Spaces, t, 0)
    case Some(g) => Some(DimsOf(t, g))
    case None => None
  }

  /** parseDims exactly as the source file spells it: a pair exactly when the
      string, with Ã, the em dash and 'X' replaced by 'x', contains the pattern. */
  function ParseDimsAsWritten(s: string): (r: Option<Dims>)
    ensures r.Some? <==> exists p: nat, k1: nat, s1: nat, s2: nat, k2: nat ::
      PatternAt(Spaces, Normalize(WrittenSubstitutes, s), p, k1, s1, s2, k2)
  {
    ParseDimsSomeIffPattern(WrittenSubstitutes, s);
    ParseDimsWith(WrittenSubstitutes, s)
  }

  /** parseDims with the class the authors meant. The two classes differ only
      on the multiplication sign and its mis-decoded form, so strings free of
      those three characters parse alike. */
  function ParseDims(s: string): (r: Option<Dims>)
    ensures (forall i :: 0 <= i < |s| ==> s[i] !in {'\U{00C3}', '\U{2014}', '\U{00D7}'}) ==>
              r == ParseDimsAsWritten(s)
  {
    NormalizeAgrees(s);
    ParseDimsWith(IntendedSubstitutes, s)
  }

  lemma NormalizeAgrees(s: string)
    ensures (forall i :: 0 <= i < |s| ==> s[i] !in {'\U{00C3}', '\U{2014}', '\U{00D7}'}) ==>
              Normalize(WrittenSubstitutes, s) == Normalize(IntendedSubstitutes, s)
  {
  }

  /** No position before the leftmost match admits the pattern at all. */
  lemma NoPatternBefore(sp: set<char>, t: string, p: nat)
    requires Separated(sp)
    requires p <= |t| + 1
    requires forall q :: 0 <= q < p && q <= |t| ==> MatchAt(sp, t, q).None?
    ensures forall p': nat, k1: nat, s1: nat, s2: nat, k2: nat :: p' < p ==>
              !PatternAt(sp, t, p', k1, s1, s2, k2)
  {
    forall p': nat, k1: nat, s1: nat, s2: nat, k2: nat | p' < p
      ensures !PatternAt(sp, t, p', k1, s1, s2, k2)
    {
      if PatternAt(sp, t, p', k1, s1, s2, k2) {
        MatchAtComplete(sp, t, p', k1, s1, s2, k2);
      }
    }
  }

  /** When scanning t from the start finds a match, the pattern matches at the
      match's position with the match's groups, the second group is a maximal
      digit run, and the pattern matches at no earlier position. */
  lemma ScanFindsLeftmostPattern(sp: set<char>, t: string) returns (s1: nat, s2: nat)
    requires Separated(sp)
    requires Scan(sp, t, 0).Some?
    ensures var g := Scan(sp, t, 0).value;
      && PatternAt(sp, t, g.w, g.wn, s1, s2, g.hn)
      && g.h == g.w + g.wn + s1 + 1 + s2
      && (g.h + g.hn == |t| || !IsDigit(t[g.h + g.hn]))
    ensures forall p': nat, k1: nat, s1': nat, s2': nat, k2: nat :: p' < Scan(sp, t, 0).value.w ==>
              !PatternAt(sp, t, p', k1, s1', s2', k2)
  {
    ScanIsLeftmost(sp, t, 0);
    var g := Scan(sp, t, 0).value;
    s1, s2 := MatchAtSound(sp, t, g.w);
    NoPatternBefore(sp, t, g.w);
  }

  /** When scanning t from the start finds nothing, the pattern matches nowhere in t. */
  lemma ScanFailsOnlyWithoutPattern(sp: set<char>, t: string)
    requires Separated(sp)
    requires Scan(sp, t, 0).None?
    ensures forall p: nat, k1: nat, s1: nat, s2: nat, k2: nat ::
              !PatternAt(sp, t, p, k1, s1, s2, k2)
  {
    ScanIsLeftmost(sp, t, 0);
    NoPatternBefore(sp, t, |t| + 1);
    forall p: nat, k1: nat, s1: nat, s2: nat, k2: nat
      ensures !PatternAt(sp, t, p, k1, s1, s2, k2)
    {
      if p > |t| {
        assert !PatternAt(sp, t, p, k1, s1, s2, k2);
      }
    }
  }

  /** parseDims yields a result exactly when the pattern matches somewhere in
      the normalised string. */
  lemma ParseDimsSomeIffPattern(subst: set<char>, s: string)
    ensures var t := Normalize(subst, s);
      ParseDimsWith(subst, s).Some? <==>
        exists p: nat, k1: nat, s1: nat, s2: nat, k2: nat :: PatternAt(Spaces, t, p, k1, s1, s2, k2)
  {
    var t := Normalize(subst, s);
    SpacesSeparated();
    if Scan(Spaces, t, 0).Some? {
      var s1, s2 := ScanFindsLeftmostPattern(Spaces, t);
      var g := Scan(Spaces, t, 0).value;
      assert PatternAt(Spaces, t, g.w, g.wn, s1, s2, g.hn);
    } else {
      ScanFailsOnlyWithoutPattern(Spaces, t);
    }
  }

  /** The pair parseDims finds in an already normalised string t: the decimal
      values of the leftmost pattern match's first group and of its second
      group, read greedily to the end of the digit run. */
  lemma FirstDimsIsLeftmostMatch(t: string) returns (p: nat, k1: nat, s1: nat, s2: nat, q: nat, k2: nat)
    requires FirstDims(t).Some?
    ensures Scan(Spaces, t, 0) == Some(Groups(p, k1, q, k2))
    ensures FirstDims(t) == Some(DimsOf(t, Groups(p, k1, q, k2)))
    ensures q == p + k1 + s1 + 1 + s2
    ensures PatternAt(Spaces, t, p, k1, s1, s2, k2)
    ensures q + k2 == |t| || !IsDigit(t[q + k2])
    ensures forall p': nat, k1': nat, s1': nat, s2': nat, k2': nat :: p' < p ==>
              !PatternAt(Spaces, t, p', k1', s1', s2', k2')
  {
    var r := Scan(Spaces, t, 0);
    assert r.Some?;
    var g := r.value;
    SpacesSeparated();
    s1, s2 := ScanFindsLeftmostPattern(Spaces, t);
    p, k1, q, k2 := g.w, g.wn, g.h, g.hn;
    assert r == Some(Groups(p, k1, q, k2));
  }

  /** The string with the substitutes replaced holds no 'x'. */
  lemma NoSeparatorNoDims(subst: set<char>, s: string)
    requires forall i :: 0 <= i < |s| ==> s[i] != 'x' && s[i] !in subst
    ensures ParseDimsWith(subst, s) == None
  {
    var t := Normalize(subst, s);
    ParseDimsSomeIffPattern(subst, s);
    forall p: nat, k1: nat, s1: nat, s2: nat, k2: nat
      ensures !PatternAt(Spaces, t, p, k1, s1, s2, k2)
    {
      var x := p + k1 + s1;
      if x < |t| {
        assert t[x] == s[x];
      }
    }
  }

  lemma DecimalValues()
    ensures Value("1200") == 1200 && Value("800") == 800
  {
    assert Value("1") == 1 && Value("12") == 12 && Value("120") == 120;
    assert "1200"[..3] == "120";
    assert Value("8") == 8 && Value("80") == 80;
  }

  /** "00x00" is found, and denotes a zero width. */
  lemma ZerosParseAsZero(subst: set<char>, s: string)
    requires Normalize(subst, s) == "00x00"
    ensures ParseDimsWith(subst, s).Some? && ParseDimsWith(subst, s).value.w == 0
  {
    var t := Normalize(subst, s);
    SpacesSeparated();
    assert PatternAt(Spaces, t, 0, 2, 0, 0, 2);
    ParseDimsSomeIffPattern(subst, s);
    assert ParseDimsWith(subst, s) == FirstDims(t);
    var p, k1, s1, s2, q, k2 := FirstDimsIsLeftmostMatch(t);
    assert p == 0 && k1 == 2;
    assert t[0..k1] == "00";
    ValueBounds("00");
  }

  /** "1200x800" gives 1200 by 800 once normalised to itself. */
  lemma Parse1200x800(subst: set<char>, s: string)
    requires Normalize(subst, s) == "1200x800"
    ensures ParseDimsWith(subst, s) == Some(Dims(1200, 800))
  {
    Scan1200x800(Normalize(subst, s));
  }

  lemma Scan1200x800(t: string)
    requires t == "1200x800"
    ensures Scan(Spaces, t, 0) == Some(Groups(0, 4, 5, 3))
    ensures FirstDims(t) == Some(Dims(1200, 800))
  {
    var g := Groups(0, 4, 5, 3);
    assert MatchAt(Spaces, t, 0) == Some(g) by {
      SpacesSeparated();
      assert PatternAt(Spaces, t, 0, 4, 0, 0, 3);
      MatchAtComplete(Spaces, t, 0, 4, 0, 0, 3);
    }
    assert Scan(Spaces, t, 0) == Some(g);
    assert t[0..4] == "1200" && t[5..8] == "800";
    DecimalValues();
    assert DimsOf(t, g) == Dims(1200, 800);
  }

  /** Normalising a string of the form digits, one separator, digits: the
      separator becomes 'x' and the digits stay. */
  lemma NormalizeAround(subst: set<char>, s: string, i: nat)
    requires i < |s| && (s[i] == 'x' || s[i] in subst)
    requires forall j :: 0 <= j < |s| && j != i ==> IsDigit(s[j])
    requires forall c :: c in subst ==> !IsDigit(c)
    ensures Normalize(subst, s) == s[..i] + "x" + s[i + 1..]
  {
  }

  /** "1200x800", "1200X800" and, with the intended class, "1200×800" give
      1200 by 800. */
  lemma IntendedExamples(s: string)
    requires s in ["1200x800", "1200X800", "1200\U{00D7}800"]
    ensures ParseDims(s) == Some(Dims(1200, 800))
  {
    NormalizeAround(IntendedSubstitutes, s, 4);
    assert s[..4] + "x" + s[5..] == "1200x800";
    Parse1200x800(IntendedSubstitutes, s);
  }

  /** As written, the class misses the multiplication sign: "1200×800" yields
      nothing, where the intended class reads 1200 by 800. */
  lemma WrittenClassMissesMultiplicationSign(s: string)
    requires s == "1200\U{00D7}800"
    ensures ParseDimsAsWritten(s) == None
    ensures ParseDims(s) == Some(Dims(1200, 800))
  {
    NoSeparatorNoDims(WrittenSubstitutes, s);
    IntendedExamples(s);
  }

  /** As written, "1200x800", "1200X800" and "1200—800" give 1200 by 800. */
  lemma WrittenExamples(s: string)
    requires s in ["1200x800", "1200X800", "1200\U{2014}800"]
    ensures ParseDimsAsWritten(s) == Some(Dims(1200, 800))
  {
    NormalizeAround(WrittenSubstitutes, s, 4);
    assert s[..4] + "x" + s[5..] == "1200x800";
    Parse1200x800(WrittenSubstitutes, s);
  }
}
