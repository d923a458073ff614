/**
  The JavaScript string primitives the photo catalogue and the gallery use,
  stated over `seq<char>`: `toLowerCase` (ASCII letters only), `includes`,
  `replace` with a string pattern (first occurrence only), the global
  replacements `/-/g` and `/\s+/g`, `split('/').pop()`, and the decimal
  rendering of a non-negative integer in a template literal.
*/
module Text {

  /** A letter 'A'..'Z'. */
  predicate IsUpper(c: char) {
    'A' <= c <= 'Z'
  }

  /** `toLowerCase` of one character, restricted to ASCII letters. */
  function LowerChar(c: char): (r: char)
    ensures !IsUpper(r)
    ensures IsUpper(c) ==> r as int == c as int + 32
    ensures !IsUpper(c) ==> r == c
  {
    if IsUpper(c) then (c as int + 32) as char else c
  }

  /** No ASCII upper-case letter anywhere in `s`. */
  predicate IsLowerCase(s: string) {
    forall i :: 0 <= i < |s| ==> !IsUpper(s[i])
  }

  /** `s.toLowerCase()`: every ASCII capital replaced by its small letter. */
  function Lower(s: string): (r: string)
    ensures |r| == |s|
    ensures IsLowerCase(r)
    ensures forall i :: 0 <= i < |s| ==> r[i] == LowerChar(s[i])
  {
    if s == [] then [] else [LowerChar(s[0])] + Lower(s[1..])
  }

  /** A string with no capital is its own lower-case form. */
  lemma LowerOfLowerCase(s: string)
    requires IsLowerCase(s)
    ensures Lower(s) == s
  {
  }

  /** Lower-casing distributes over concatenation. */
  lemma {:induction false} LowerAppend(a: string, b: string)
    ensures Lower(a + b) == Lower(a) + Lower(b)
  {
    if a == [] {
      assert a + b == b;
    } else {
      assert (a + b)[1..] == a[1..] + b;
      LowerAppend(a[1..], b);
    }
  }

  /** `a` and `b` differ at most in the case of their ASCII letters. */
  predicate SameIgnoringCase(a: string, b: string) {
    |a| == |b| && forall i :: 0 <= i < |a| ==> LowerChar(a[i]) == LowerChar(b[i])
  }

  /** Strings equal up to letter case have the same lower-case form. */
  lemma LowerOfSameIgnoringCase(a: string, b: string)
    requires SameIgnoringCase(a, b)
    ensures Lower(a) == Lower(b)
  {
    var la, lb := Lower(a), Lower(b);
    assert |la| == |lb|;
    forall i | 0 <= i < |la| ensures la[i] == lb[i] {
    }
  }

  /** `s` begins with `pat`. */
  predicate StartsWith(s: string, pat: string) {
    |pat| <= |s| && s[..|pat|] == pat
  }

  /** `pat` occurs in `s` starting at index `i`. */
  predicate OccursAt(s: string, pat: string, i: int) {
    0 <= i <= |s| && StartsWith(s[i..], pat)
  }

  /** `s.includes(pat)`, by scanning `s` from the left. */
  predicate Contains(s: string, pat: string)
    ensures Contains(s, pat) ==> |pat| <= |s|
    decreases |s|
  {
    if StartsWith(s, pat) then true
    else if s == [] then false
    else Contains(s[1..], pat)
  }

  /** `Contains` holds exactly when `pat` occurs at some index of `s`. */
  lemma {:induction false} ContainsIffOccurs(s: string, pat: string)
    ensures Contains(s, pat) <==> exists i :: OccursAt(s, pat, i)
    decreases |s|
  {
    assert s[0..] == s;
    if StartsWith(s, pat) {
      assert OccursAt(s, pat, 0);
    } else if s != [] {
      ContainsIffOccurs(s[1..], pat);
      forall i | OccursAt(s[1..], pat, i) ensures OccursAt(s, pat, i + 1) {
        assert s[1..][i..] == s[i + 1..];
      }
      forall i | OccursAt(s, pat, i) ensures OccursAt(s[1..], pat, i - 1) {
        assert s[1..][i - 1..] == s[i..];
      }
    }
  }

  /** A string that holds `pat` keeps holding it when text is added around it. */
  lemma ContainsInContext(pre: string, s: string, post: string, pat: string)
    requires Contains(s, pat)
    ensures Contains(pre + s + post, pat)
  {
    ContainsIffOccurs(s, pat);
    var i :| OccursAt(s, pat, i);
    var t := pre + s + post;
    assert t[|pre| + i..][..|pat|] == s[i..][..|pat|];
    assert OccursAt(t, pat, |pre| + i);
    ContainsIffOccurs(t, pat);
  }

  /**
    `s.replace(pat, '')` with a string pattern: only the FIRST occurrence
    of `pat` is removed; without an occurrence `s` is returned unchanged.
  */
  function RemoveFirst(s: string, pat: string): (r: string)
    ensures |r| == if Contains(s, pat) then |s| - |pat| else |s|
    decreases |s|
  {
    if StartsWith(s, pat) then s[|pat|..]
    else if s == [] then []
    else [s[0]] + RemoveFirst(s[1..], pat)
  }

  /** Without an occurrence of `pat` the string is unchanged. */
  lemma {:induction false} RemoveFirstAbsent(s: string, pat: string)
    requires !Contains(s, pat)
    ensures RemoveFirst(s, pat) == s
    decreases |s|
  {
    if s != [] {
      RemoveFirstAbsent(s[1..], pat);
    }
  }

  /** When the first occurrence is at `i`, exactly the characters `i .. i + |pat|` go. */
  lemma {:induction false} RemoveFirstAt(s: string, pat: string, i: nat)
    requires OccursAt(s, pat, i)
    requires forall j :: 0 <= j < i ==> !OccursAt(s, pat, j)
    ensures RemoveFirst(s, pat) == s[..i] + s[i + |pat|..]
    decreases i
  {
    assert s[0..] == s;
    if i == 0 {
    } else {
      assert !OccursAt(s, pat, 0);
      assert s[1..][i - 1..] == s[i..];
      forall j | 0 <= j < i - 1 ensures !OccursAt(s[1..], pat, j) {
        assert s[1..][j..] == s[j + 1..];
        assert !OccursAt(s, pat, j + 1);
      }
      RemoveFirstAt(s[1..], pat, i - 1);
      assert [s[0]] + (s[1..][..i - 1] + s[1..][i - 1 + |pat|..]) == s[..i] + s[i + |pat|..];
    }
  }

  /** A string that contains `pat` has a first occurrence of it. */
  lemma {:induction false} FirstOccurrence(s: string, pat: string)
    requires Contains(s, pat)
    ensures exists i :: OccursAt(s, pat, i) && forall j :: 0 <= j < i ==> !OccursAt(s, pat, j)
    decreases |s|
  {
    assert s[0..] == s;
    if StartsWith(s, pat) {
      assert OccursAt(s, pat, 0);
    } else {
      FirstOccurrence(s[1..], pat);
      var i :| OccursAt(s[1..], pat, i) && forall j :: 0 <= j < i ==> !OccursAt(s[1..], pat, j);
      assert s[1..][i..] == s[i + 1..];
      forall j | 0 <= j < i + 1 ensures !OccursAt(s, pat, j) {
        if j > 0 {
          assert !OccursAt(s[1..], pat, j - 1);
          assert s[1..][j - 1..] == s[j..];
        } else {
          assert s[j..] == s;
          assert !StartsWith(s, pat);
        }
      }
      assert OccursAt(s, pat, i + 1);
    }
  }

  /**
    `RemoveFirst` deletes the first occurrence of `pat` and nothing else,
    and returns `s` itself when there is none.
  */
  lemma RemoveFirstSpec(s: string, pat: string)
    ensures !Contains(s, pat) ==> RemoveFirst(s, pat) == s
    ensures Contains(s, pat) ==>
      exists i :: OccursAt(s, pat, i)
        && (forall j :: 0 <= j < i ==> !OccursAt(s, pat, j))
        && RemoveFirst(s, pat) == s[..i] + s[i + |pat|..]
  {
    if Contains(s, pat) {
      FirstOccurrence(s, pat);
      var i :| OccursAt(s, pat, i) && forall j :: 0 <= j < i ==> !OccursAt(s, pat, j);
      RemoveFirstAt(s, pat, i);
    } else {
      RemoveFirstAbsent(s, pat);
    }
  }

  /** `s.replace(/-/g, ' ')`: every hyphen becomes a space. */
  function DashesToSpaces(s: string): (r: string)
    ensures |r| == |s|
  {
    if s == [] then [] else [if s[0] == '-' then ' ' else s[0]] + DashesToSpaces(s[1..])
  }

  /** `DashesToSpaces` keeps the length, leaves no hyphen and changes nothing else. */
  lemma {:induction false} DashesToSpacesSpec(s: string)
    ensures |DashesToSpaces(s)| == |s|
    ensures '-' !in DashesToSpaces(s)
    ensures forall i :: 0 <= i < |s| ==>
      DashesToSpaces(s)[i] == if s[i] == '-' then ' ' else s[i]
  {
    if s != [] {
      DashesToSpacesSpec(s[1..]);
    }
  }

  /** A string without hyphens is left as it is. */
  lemma DashesToSpacesNoDash(s: string)
    requires '-' !in s
    ensures DashesToSpaces(s) == s
  {
    DashesToSpacesSpec(s);
  }

  /** Lower-casing commutes with turning hyphens into spaces. */
  lemma {:induction false} LowerDashesToSpaces(s: string)
    ensures Lower(DashesToSpaces(s)) == DashesToSpaces(Lower(s))
  {
    if s != [] {
      LowerDashesToSpaces(s[1..]);
      assert Lower(s)[1..] == Lower(s[1..]);
    }
  }

  /**
    The characters ECMAScript's `\s` matches: the WhiteSpace and
    LineTerminator code points of section 12.2 and 12.3 of ECMA-262.
  */
  predicate IsWhitespace(c: char) {
    || c == ' '
    || '\t' <= c <= '\r'
    || c as int == 0xA0 || c as int == 0x1680
    || (0x2000 <= c as int <= 0x200A)
    || c as int == 0x2028 || c as int == 0x2029
    || c as int == 0x202F || c as int == 0x205F
    || c as int == 0x3000 || c as int == 0xFEFF
  }

  /** No character of `s` is whitespace. */
  predicate NoWhitespace(s: string) {
    forall i :: 0 <= i < |s| ==> !IsWhitespace(s[i])
  }

  /** `s` with its leading whitespace run removed. */
  function SkipWhitespace(s: string): (r: string)
    ensures |r| <= |s|
    ensures r == s[|s| - |r|..]
    ensures r == [] || !IsWhitespace(r[0])
    ensures forall i :: 0 <= i < |s| - |r| ==> IsWhitespace(s[i])
  {
    if s != [] && IsWhitespace(s[0]) then SkipWhitespace(s[1..]) else s
  }

  /** `s.replace(/\s+/g, '-')`: every maximal run of whitespace becomes one hyphen. */
  function WhitespaceRunsToDashes(s: string): (r: string)
    ensures NoWhitespace(r)
    ensures |r| <= |s|
    ensures forall i :: 0 <= i < |r| ==> r[i] == '-' || r[i] in s
    ensures s != [] ==> r != []
    decreases |s|
  {
    if s == [] then []
    else if IsWhitespace(s[0]) then
      var rest := SkipWhitespace(s[1..]);
      assert forall c :: c in rest ==> c in s;
      ['-'] + WhitespaceRunsToDashes(rest)
    else [s[0]] + WhitespaceRunsToDashes(s[1..])
  }

  /** Every character of `w` is whitespace. */
  predicate AllWhitespace(w: string) {
    forall i :: 0 <= i < |w| ==> IsWhitespace(w[i])
  }

  /** `a` does not end inside a whitespace run. */
  predicate EndsOutsideRun(a: string) {
    a == [] || !IsWhitespace(a[|a| - 1])
  }

  /** `b` does not start inside a whitespace run. */
  predicate StartsOutsideRun(b: string) {
    b == [] || !IsWhitespace(b[0])
  }

  /** Skipping a whitespace run stops at the first character after it. */
  lemma {:induction false} SkipRun(w: string, b: string)
    requires AllWhitespace(w) && StartsOutsideRun(b)
    ensures SkipWhitespace(w + b) == b
  {
    if w == [] {
      assert w + b == b;
    } else {
      assert (w + b)[0] == w[0] && (w + b)[1..] == w[1..] + b;
      SkipRun(w[1..], b);
    }
  }

  /** A run that ends before the end of `x` is skipped the same way with text after `x`. */
  lemma {:induction false} SkipAppend(x: string, t: string)
    requires x != [] && !IsWhitespace(x[|x| - 1])
    ensures SkipWhitespace(x + t) == SkipWhitespace(x) + t
  {
    assert (x + t)[0] == x[0];
    if IsWhitespace(x[0]) {
      assert (x + t)[1..] == x[1..] + t;
      SkipAppend(x[1..], t);
    }
  }

  /**
    `replace(/\s+/g, '-')` works piecewise when the first piece does not
    end inside a whitespace run.
  */
  lemma {:induction false} RunsAppend(a: string, t: string)
    requires EndsOutsideRun(a)
    ensures WhitespaceRunsToDashes(a + t) == WhitespaceRunsToDashes(a) + WhitespaceRunsToDashes(t)
    decreases |a|, 1
  {
    if a == [] {
      assert a + t == t;
    } else if IsWhitespace(a[0]) {
      RunsAppendAfterRun(a, t);
    } else {
      assert (a + t)[0] == a[0] && (a + t)[1..] == a[1..] + t;
      RunsAppend(a[1..], t);
    }
  }

  /** A leading whitespace run is replaced by one hyphen. */
  lemma RunsAtFront(s: string)
    requires s != [] && IsWhitespace(s[0])
    ensures WhitespaceRunsToDashes(s) == ['-'] + WhitespaceRunsToDashes(SkipWhitespace(s[1..]))
  {
  }

  /** `RunsAppend` when `a` starts with a whitespace run. */
  lemma {:induction false} RunsAppendAfterRun(a: string, t: string)
    requires a != [] && IsWhitespace(a[0]) && EndsOutsideRun(a)
    ensures WhitespaceRunsToDashes(a + t) == WhitespaceRunsToDashes(a) + WhitespaceRunsToDashes(t)
    decreases |a|, 0
  {
    var x := a[1..];
    assert x != [] && x[|x| - 1] == a[|a| - 1];
    var rest := SkipWhitespace(x);
    assert (a + t)[0] == a[0] && (a + t)[1..] == x + t;
    RunsAtFront(a);
    RunsAtFront(a + t);
    SkipAppend(x, t);
    assert EndsOutsideRun(rest);
    RunsAppend(rest, t);
    ConcatAssociative("-", WhitespaceRunsToDashes(rest), WhitespaceRunsToDashes(t));
  }

  /** Concatenation is associative. */
  lemma ConcatAssociative(a: string, b: string, c: string)
    ensures a + (b + c) == (a + b) + c
  {
  }

  /** A whole whitespace run in front becomes a single hyphen. */
  lemma RunThen(w: string, b: string)
    requires w != [] && AllWhitespace(w) && StartsOutsideRun(b)
    ensures WhitespaceRunsToDashes(w + b) == "-" + WhitespaceRunsToDashes(b)
  {
    assert (w + b)[0] == w[0] && (w + b)[1..] == w[1..] + b;
    SkipRun(w[1..], b);
  }

  /**
    `replace(/\s+/g, '-')` turns each maximal whitespace run, however long,
    into exactly one hyphen and keeps the text on either side of it.
  */
  lemma Collapse(a: string, w: string, b: string)
    requires EndsOutsideRun(a) && StartsOutsideRun(b)
    requires w != [] && AllWhitespace(w)
    ensures WhitespaceRunsToDashes(a + w + b) == WhitespaceRunsToDashes(a) + "-" + WhitespaceRunsToDashes(b)
  {
    ConcatAssociative(a, w, b);
    RunsAppend(a, w + b);
    RunThen(w, b);
    ConcatAssociative(WhitespaceRunsToDashes(a), "-", WhitespaceRunsToDashes(b));
  }

  /** Joining two strings without whitespace gives a string without whitespace. */
  lemma NoWhitespaceAppend(a: string, b: string)
    requires NoWhitespace(a) && NoWhitespace(b)
    ensures NoWhitespace(a + b)
  {
    forall i | 0 <= i < |a + b| ensures !IsWhitespace((a + b)[i]) {
      if i >= |a| {
        assert (a + b)[i] == b[i - |a|];
      }
    }
  }

  /** Replacing whitespace runs keeps a lower-case string lower-case. */
  lemma WhitespaceRunsToDashesLowerCase(s: string)
    requires IsLowerCase(s)
    ensures IsLowerCase(WhitespaceRunsToDashes(s))
  {
  }

  /** Text without whitespace passes through unchanged. */
  lemma {:induction false} WhitespaceRunsToDashesIdentity(s: string)
    requires NoWhitespace(s)
    ensures WhitespaceRunsToDashes(s) == s
  {
    if s != [] {
      assert !IsWhitespace(s[0]);
      WhitespaceRunsToDashesIdentity(s[1..]);
    }
  }

  /**
    Words without hyphens separated by single spaces: the only whitespace
    is ' ', and no two spaces are adjacent.
  */
  predicate SingleSpaced(s: string) {
    forall i :: 0 <= i < |s| ==>
      && s[i] != '-'
      && (IsWhitespace(s[i]) ==> s[i] == ' ')
      && (i + 1 < |s| && s[i] == ' ' ==> s[i + 1] != ' ')
  }

  /** Dropping the first character keeps a string single-spaced. */
  lemma SingleSpacedTail(s: string)
    requires s != [] && SingleSpaced(s)
    ensures SingleSpaced(s[1..])
  {
    var t := s[1..];
    forall i | 0 <= i < |t| ensures t[i] == s[i + 1] {}
  }

  /** The first character of a single-spaced string, and what may follow a space. */
  lemma SingleSpacedHead(s: string)
    requires s != [] && SingleSpaced(s)
    ensures s[0] != '-'
    ensures IsWhitespace(s[0]) ==> s[0] == ' ' && StartsOutsideRun(s[1..])
  {
    if IsWhitespace(s[0]) && |s| > 1 {
      assert s[1..][0] == s[1] && s[1] != ' ';
    }
  }

  /** A single space between words becomes a single hyphen, and back again. */
  lemma {:induction false} SlugRoundTrip(s: string)
    requires SingleSpaced(s)
    ensures DashesToSpaces(WhitespaceRunsToDashes(s)) == s
  {
    if s != [] {
      var t := s[1..];
      SingleSpacedTail(s);
      SingleSpacedHead(s);
      SlugRoundTrip(t);
      var x := WhitespaceRunsToDashes(t);
      var c := if IsWhitespace(s[0]) then '-' else s[0];
      assert WhitespaceRunsToDashes(s) == [c] + x by {
        if IsWhitespace(s[0]) {
          SkipRun([], t);
          assert [] + t == t;
          RunsAtFront(s);
        }
      }
      assert DashesToSpaces([c] + x) == s by {
        DashesToSpacesCons(c, x);
        assert s == [s[0]] + t;
      }
    }
  }

  /** `DashesToSpaces` of a string with one more character in front. */
  lemma DashesToSpacesCons(c: char, s: string)
    ensures DashesToSpaces([c] + s) == [if c == '-' then ' ' else c] + DashesToSpaces(s)
  {
    assert ([c] + s)[0] == c && ([c] + s)[1..] == s;
  }

  /** `s.split(sep).pop()`: the text after the last `sep`, or all of `s` without one. */
  function LastSegment(s: string, sep: char): (r: string)
    ensures |r| <= |s|
    ensures sep !in r
  {
    if s == [] then []
    else if s[|s| - 1] == sep then []
    else LastSegment(s[..|s| - 1], sep) + [s[|s| - 1]]
  }

  /**
    `t` is what follows the last `sep` of `s`: a suffix of `s` without
    `sep`, all of `s` when `s` has no `sep`, and otherwise preceded by one.
  */
  predicate IsLastSegment(t: string, s: string, sep: char) {
    && |t| <= |s|
    && t == s[|s| - |t|..]
    && sep !in t
    && (sep !in s ==> t == s)
    && (sep in s ==> s[|s| - |t| - 1] == sep)
  }

  /** `LastSegment` gives the text after the last separator. */
  lemma {:induction false} LastSegmentSpec(s: string, sep: char)
    ensures IsLastSegment(LastSegment(s, sep), s, sep)
  {
    if s != [] && s[|s| - 1] != sep {
      var init := s[..|s| - 1];
      var t := LastSegment(init, sep);
      LastSegmentSpec(init, sep);
      assert s == init + [s[|s| - 1]];
      assert LastSegment(s, sep) == t + [s[|s| - 1]];
      if sep in s {
        assert sep in init;
      }
    }
  }

  /** The character of a decimal digit. */
  function DigitChar(d: nat): (c: char)
    requires d < 10
    ensures '0' <= c <= '9'
    ensures c as int - '0' as int == d
  {
    "0123456789"[d]
  }

  /** `String(n)` for a non-negative integer: its decimal digits, most significant first. */
  function Decimal(n: nat): (r: string)
    ensures 0 < |r|
    ensures forall i :: 0 <= i < |r| ==> '0' <= r[i] <= '9'
    ensures n == 0 || r[0] != '0'
  {
    if n < 10 then [DigitChar(n)] else Decimal(n / 10) + [DigitChar(n % 10)]
  }

  /** The number a string of decimal digits denotes. */
  function DecimalValue(s: string): (n: nat)
    requires forall i :: 0 <= i < |s| ==> '0' <= s[i] <= '9'
  {
    if s == [] then 0 else 10 * DecimalValue(s[..|s| - 1]) + (s[|s| - 1] as int - '0' as int)
  }

  /** Reading back the decimal rendering gives the number. */
  lemma {:induction false} DecimalRoundTrip(n: nat)
    ensures DecimalValue(Decimal(n)) == n
  {
    var r := Decimal(n);
    if n >= 10 {
      DecimalRoundTrip(n / 10);
      assert r[..|r| - 1] == Decimal(n / 10);
    }
  }
}
