/// The Python `str` built-ins that the core relies on (`isspace`, `strip`,
/// `lower`, `replace`), on strings modelled as sequences of Unicode code
/// points, plus the `Option` used for values that Python may give as `None`.
/// `Occurs` (substring search) and `Count` (the occurrence count) are used to
/// state the `Replace` lemmas.
module PyStr {

  datatype Option<T> = None | Some(value: T) {
    /** The value, or `default` when there is none. */
    function GetOr(default: T): T {
      match this
      case Some(v) => v
      case None => default
    }
  }

  /** Python's truthiness of an optional string: `None` and `""` are false. */
  predicate Truthy(s: Option<string>) {
    s.Some? && s.value != ""
  }

  // ---------------------------------------------------------------------------
  // Whitespace and `strip`
  // ---------------------------------------------------------------------------

  /** Python's `str.isspace` on one character (the characters `strip()` removes). */
  predicate IsSpace(c: char) {
    || c == ' '
    || ('\t' <= c <= '\r')
    || ('\U{1C}' <= c <= '\U{1F}')
    || c == '\U{85}' || c == '\U{A0}' || c == '\U{1680}'
    || ('\U{2000}' <= c <= '\U{200A}')
    || c == '\U{2028}' || c == '\U{2029}' || c == '\U{202F}' || c == '\U{205F}' || c == '\U{3000}'
  }

  /** Every character of `s` is whitespace (true of the empty string). */
  predicate IsBlank(s: string) {
    forall i :: 0 <= i < |s| ==> IsSpace(s[i])
  }

  /** A whitespace character before a blank text leaves it blank. */
  lemma BlankCons(c: char, t: string)
    requires IsSpace(c) && IsBlank(t)
    ensures IsBlank([c] + t)
  {
    forall i | 0 <= i < |[c] + t| ensures IsSpace(([c] + t)[i]) {
      if i > 0 {
        assert ([c] + t)[i] == t[i - 1];
      }
    }
  }

  /** A whitespace character after a blank text leaves it blank. */
  lemma BlankSnoc(t: string, c: char)
    requires IsBlank(t) && IsSpace(c)
    ensures IsBlank(t + [c])
  {
    forall i | 0 <= i < |t + [c]| ensures IsSpace((t + [c])[i]) {
      if i < |t| {
        assert (t + [c])[i] == t[i];
      }
    }
  }

  /** `s.lstrip()`: the suffix left after removing all leading whitespace. */
  function TrimStart(s: string): (r: string)
    ensures |r| <= |s| && r == s[|s| - |r|..]
    ensures IsBlank(s[..|s| - |r|])
    ensures r != [] ==> !IsSpace(r[0])
    decreases |s|
  {
    if s != [] && IsSpace(s[0]) then
      var r := TrimStart(s[1..]);
      assert s[..|s| - |r|] == [s[0]] + s[1..][..|s| - 1 - |r|];
      BlankCons(s[0], s[1..][..|s| - 1 - |r|]);
      r
    else s
  }

  /** `s.rstrip()`: the prefix left after removing all trailing whitespace. */
  function TrimEnd(s: string): (r: string)
    ensures |r| <= |s| && r == s[..|r|]
    ensures IsBlank(s[|r|..])
    ensures r != [] ==> !IsSpace(r[|r| - 1])
    decreases |s|
  {
    if s != [] && IsSpace(s[|s| - 1]) then
      var r := TrimEnd(s[..|s| - 1]);
      assert s[|r|..] == s[..|s| - 1][|r|..] + [s[|s| - 1]];
      BlankSnoc(s[..|s| - 1][|r|..], s[|s| - 1]);
      r
    else s
  }

  /** `s.strip()`: a slice of `s` that neither starts nor ends with whitespace,
      everything cut off being whitespace; it is empty exactly when `s` is blank. */
  function Strip(s: string): (r: string)
    ensures TrimmedSliceAt(s, r, |s| - |TrimStart(s)|)
    ensures r != [] ==> !IsSpace(r[0]) && !IsSpace(r[|r| - 1])
    ensures r == [] <==> IsBlank(s)
  {
    StripIsSlice(s);
    StripEnds(s);
    StripBlank(s);
    TrimEnd(TrimStart(s))
  }

  /** `r` is the slice of `s` starting at `i`, with only whitespace around it. */
  predicate TrimmedSliceAt(s: string, r: string, i: int) {
    && 0 <= i <= |s| - |r|
    && r == s[i..i + |r|]
    && IsBlank(s[..i])
    && IsBlank(s[i + |r|..])
  }

  /** The two trims of `Strip` cut whitespace only. */
  lemma StripIsSlice(s: string)
    ensures TrimmedSliceAt(s, TrimEnd(TrimStart(s)), |s| - |TrimStart(s)|)
  {
    var t := TrimStart(s);
    SliceOfSuffix(s, t, TrimEnd(t), |s| - |t|);
  }

  /** A prefix `r` of the suffix `t` of `s` starting at `i`, framed by blank
      text on both sides, is a trimmed slice of `s`. */
  lemma SliceOfSuffix(s: string, t: string, r: string, i: int)
    requires 0 <= i <= |s| && t == s[i..] && IsBlank(s[..i])
    requires |r| <= |t| && r == t[..|r|] && IsBlank(t[|r|..])
    ensures TrimmedSliceAt(s, r, i)
  {
    assert s[i..i + |r|] == r;
    assert s[i + |r|..] == t[|r|..];
  }

  /** What `Strip` leaves neither starts nor ends with whitespace. */
  lemma StripEnds(s: string)
    ensures var r := TrimEnd(TrimStart(s));
            r != [] ==> !IsSpace(r[0]) && !IsSpace(r[|r| - 1])
  {
    var t := TrimStart(s);
    var r := TrimEnd(t);
    if r != [] {
      assert r[0] == t[0];
    }
  }

  /** `Strip` leaves nothing exactly when the text is all whitespace. */
  lemma StripBlank(s: string)
    ensures TrimEnd(TrimStart(s)) == [] <==> IsBlank(s)
  {
    var t := TrimStart(s);
    var r := TrimEnd(t);
    var k := |s| - |t|;
    if r == [] {
      assert t[|r|..] == t;
      if t == [] {
        assert s[..k] == s;
      } else {
        assert false;
      }
    } else {
      assert s[k] == t[0] == r[0];
    }
  }

  // ---------------------------------------------------------------------------
  // `lower`
  // ---------------------------------------------------------------------------

  /** Lower-casing of one character, exact for every character whose lower case
      is an ASCII letter: `A`-`Z`, and the KELVIN SIGN, which lowers to `k`. */
  function LowerChar(c: char): (r: char)
    ensures 'a' <= r <= 'z' ==> r == c || 'A' <= c <= 'Z' || c == '\U{212A}'
  {
    if 'A' <= c <= 'Z' then (c as int + 32) as char
    else if c == '\U{212A}' then 'k'
    else c
  }

  /** `s.lower()`, character by character. */
  function Lower(s: string): (r: string)
    ensures |r| == |s|
    ensures forall i :: 0 <= i < |s| ==> r[i] == LowerChar(s[i])
  {
    if s == [] then [] else [LowerChar(s[0])] + Lower(s[1..])
  }

  /** Lower-casing twice is lower-casing once. */
  lemma {:induction false} LowerIdempotent(s: string)
    ensures Lower(Lower(s)) == Lower(s)
  {
    if s != [] {
      LowerIdempotent(s[1..]);
    }
  }

  // ---------------------------------------------------------------------------
  // Substring search, `count` and `replace`
  // ---------------------------------------------------------------------------

  /** `p in s`: `p` occurs in `s` at some position. */
  predicate Occurs(s: string, p: string) {
    exists i | 0 <= i <= |s| - |p| :: OccursAt(s, p, i)
  }

  /** `p` occurs in `s` starting at position `i`. */
  predicate OccursAt(s: string, p: string, i: int) {
    0 <= i <= |s| - |p| && s[i..i + |p|] == p
  }

  /** `s.count(p)`: the number of non-overlapping occurrences of `p` found
      scanning left to right; the empty needle occurs `|s| + 1` times. */
  function Count(s: string, p: string): nat
    decreases |s|
  {
    if p == [] then |s| + 1
    else if |s| < |p| then 0
    else if s[..|p|] == p then 1 + Count(s[|p|..], p)
    else Count(s[1..], p)
  }

  /** `s.replace(p, v)`: every non-overlapping occurrence of `p`, scanning left
      to right, replaced by `v`; the empty needle inserts `v` around every
      character. */
  function Replace(s: string, p: string, v: string): string
    decreases |s|
  {
    if p == [] then
      (if s == [] then v else v + [s[0]] + Replace(s[1..], p, v))
    else if |s| < |p| then s
    else if s[..|p|] == p then v + Replace(s[|p|..], p, v)
    else [s[0]] + Replace(s[1..], p, v)
  }

  /** An occurrence in `s[1..]` is an occurrence in `s`. */
  lemma OccursInTail(s: string, p: string)
    requires s != [] && Occurs(s[1..], p)
    ensures Occurs(s, p)
  {
    var t := s[1..];
    var i :| 0 <= i <= |t| - |p| && OccursAt(t, p, i);
    assert s[i + 1..i + 1 + |p|] == t[i..i + |p|];
    assert OccursAt(s, p, i + 1);
  }

  /** A non-empty needle is counted at least once exactly when it occurs. */
  lemma {:induction false} CountPositiveIffOccurs(s: string, p: string)
    requires p != []
    ensures Count(s, p) > 0 <==> Occurs(s, p)
    decreases |s|
  {
    if |s| < |p| {
      assert !Occurs(s, p);
    } else if s[..|p|] == p {
      assert OccursAt(s, p, 0);
    } else {
      CountPositiveIffOccurs(s[1..], p);
      if Occurs(s, p) {
        var i :| 0 <= i <= |s| - |p| && OccursAt(s, p, i);
        assert i != 0;
        assert s[1..][i - 1..i - 1 + |p|] == s[i..i + |p|];
        assert OccursAt(s[1..], p, i - 1);
      }
      if Occurs(s[1..], p) {
        OccursInTail(s, p);
      }
    }
  }

  /** Replacing a needle that does not occur leaves the text unchanged. */
  lemma {:induction false} ReplaceAbsent(s: string, p: string, v: string)
    requires p != [] && !Occurs(s, p)
    ensures Replace(s, p, v) == s
    decreases |s|
  {
    if |s| >= |p| {
      assert !OccursAt(s, p, 0);
      if Occurs(s[1..], p) {
        OccursInTail(s, p);
      }
      ReplaceAbsent(s[1..], p, v);
    }
  }

  /** Replacing a needle by itself leaves the text unchanged. */
  lemma {:induction false} ReplaceBySelf(s: string, p: string)
    ensures Replace(s, p, p) == s
    decreases |s|
  {
    if p == [] {
      if s != [] {
        ReplaceBySelf(s[1..], p);
        assert [s[0]] + s[1..] == s;
      }
    } else if |s| >= |p| {
      if s[..|p|] == p {
        ReplaceBySelf(s[|p|..], p);
        assert s[..|p|] + s[|p|..] == s;
      } else {
        ReplaceBySelf(s[1..], p);
        assert [s[0]] + s[1..] == s;
      }
    }
  }

  /** The length equation of `str.replace`: each of the `Count(s, p)`
      occurrences trades `|p|` characters for `|v|`. */
  lemma ReplaceLength(s: string, p: string, v: string)
    ensures |Replace(s, p, v)| == |s| + Count(s, p) * (|v| - |p|)
  {
    if p == [] {
      ReplaceLengthEmptyNeedle(s, v);
    } else {
      ReplaceLengthNeedle(s, p, v);
    }
  }

  lemma {:induction false} ReplaceLengthEmptyNeedle(s: string, v: string)
    ensures |Replace(s, [], v)| == |s| + (|s| + 1) * |v|
    decreases |s|
  {
    if s != [] {
      ReplaceLengthEmptyNeedle(s[1..], v);
      MulSucc(|s| , |v|);
    }
  }

  lemma {:induction false} ReplaceLengthNeedle(s: string, p: string, v: string)
    requires p != []
    ensures |Replace(s, p, v)| == |s| + Count(s, p) * (|v| - |p|)
    decreases |s|
  {
    if |s| >= |p| {
      if s[..|p|] == p {
        ReplaceLengthNeedle(s[|p|..], p, v);
        MulSucc(Count(s[|p|..], p), |v| - |p|);
      } else {
        ReplaceLengthNeedle(s[1..], p, v);
      }
    }
  }

  lemma MulSucc(n: int, d: int)
    ensures (n + 1) * d == n * d + d
  {
  }

  /** Replacing the whole text, when it is the needle, gives the value. */
  lemma ReplaceWhole(p: string, v: string)
    requires p != []
    ensures Replace(p, p, v) == v
  {
    assert p[..|p|] == p;
    assert Replace(p[|p|..], p, v) == [];
  }

  /** No occurrence of `p` in `a + t` starts inside `a` and ends inside `t`. */
  predicate NoStraddle(a: string, t: string, p: string) {
    forall i :: 0 <= i < |a| < i + |p| <= |a| + |t| ==> !OccursAt(a + t, p, i)
  }

  /** Dropping a prefix of `a` keeps the boundary free of straddling matches. */
  lemma NoStraddleDrop(a: string, t: string, p: string, n: int)
    requires 0 <= n <= |a| && NoStraddle(a, t, p)
    ensures NoStraddle(a[n..], t, p)
  {
    assert a[n..] + t == (a + t)[n..];
    forall i | 0 <= i < |a[n..]| < i + |p| <= |a[n..]| + |t|
      ensures !OccursAt(a[n..] + t, p, i)
    {
      assert (a + t)[n + i..n + i + |p|] == (a[n..] + t)[i..i + |p|];
      assert OccursAt(a[n..] + t, p, i) == OccursAt(a + t, p, n + i);
    }
  }

  /** When no occurrence straddles the boundary, `replace` works on each side
      of it separately. */
  lemma {:induction false} ReplaceSplit(a: string, t: string, p: string, v: string)
    requires p != [] && NoStraddle(a, t, p)
    ensures Replace(a + t, p, v) == Replace(a, p, v) + Replace(t, p, v)
    decreases |a|
  {
    var s := a + t;
    if a == [] {
      assert Replace(a, p, v) == a;
      assert s == t && a + Replace(t, p, v) == Replace(t, p, v);
    } else if |s| < |p| {
      assert Replace(s, p, v) == s;
      assert Replace(a, p, v) == a && Replace(t, p, v) == t;
    } else if s[..|p|] == p {
      assert OccursAt(s, p, 0);
      assert |p| <= |a|;
      assert a[..|p|] == p;
      assert s[|p|..] == a[|p|..] + t;
      NoStraddleDrop(a, t, p, |p|);
      ReplaceSplit(a[|p|..], t, p, v);
      assert Replace(s, p, v) == v + Replace(a[|p|..] + t, p, v);
      assert Replace(a, p, v) == v + Replace(a[|p|..], p, v);
      ConcatAssoc(v, Replace(a[|p|..], p, v), Replace(t, p, v));
    } else {
      assert s[1..] == a[1..] + t;
      NoStraddleDrop(a, t, p, 1);
      ReplaceSplit(a[1..], t, p, v);
      assert Replace(s, p, v) == [a[0]] + Replace(a[1..] + t, p, v);
      if |a| >= |p| {
        assert a[..|p|] == s[..|p|];
      } else {
        assert a == [a[0]] + a[1..];
        assert Replace(a[1..], p, v) == a[1..];
      }
      assert Replace(a, p, v) == [a[0]] + Replace(a[1..], p, v);
      ConcatAssoc([a[0]], Replace(a[1..], p, v), Replace(t, p, v));
    }
  }

  /** Concatenation is associative. */
  lemma ConcatAssoc<T>(a: seq<T>, b: seq<T>, c: seq<T>)
    ensures a + b + c == a + (b + c)
  {
  }

  lemma OccursPrefix(s: string, p: string, q: string)
    requires Occurs(s, p + q)
    ensures Occurs(s, p)
  {
    var i :| 0 <= i <= |s| - |p + q| && OccursAt(s, p + q, i);
    assert s[i..i + |p|] == s[i..i + |p + q|][..|p|] == (p + q)[..|p|] == p;
    assert OccursAt(s, p, i);
  }
}
