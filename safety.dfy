/// `apply_safety` and `DEFAULT_PATTERNS` (clipai/safety.py): resolve the mode
/// and the pattern list, scan the patterns once, recording hits and, in mask
/// mode, redacting as the scan goes, then choose allow, block or mask.
///
/// Regular expressions are not modelled: `re.search(p, s, flags=re.IGNORECASE)`
/// is a parameter `matches(p, s)` and `re.sub(p, "[REDACTED]", s,
/// flags=re.IGNORECASE)` a parameter `redact(p, s)`, so every result below
/// holds for every regular-expression engine.
module Safety {
  import opened PyStr

  /** `DEFAULT_PATTERNS`, as the regular-expression source texts. */
  const DefaultPatterns: seq<string> :=
    ["\\bpassword\\b", "\\bsecret\\b", "\\btoken\\b", "AKIA[0-9A-Z]{16}"]

  /** The text `re.sub` puts in place of a match. */
  const RedactionToken: string := "[REDACTED]"

  /** Whether pattern `p` is found in text `s` (`re.search`). */
  type Matcher = (string, string) -> bool

  /** Text `s` with every match of pattern `p` replaced (`re.sub`). */
  type Redactor = (string, string) -> string

  /** The dict `apply_safety` returns: `allow` carries no `hits` key. */
  datatype Verdict =
    | Allow(text: string)
    | Block(text: string, hits: seq<string>)
    | Mask(text: string, hits: seq<string>)

  /** `patterns or DEFAULT_PATTERNS`: `None` and `[]` are both falsy. */
  function ResolvePatterns(patterns: Option<seq<string>>): (ps: seq<string>)
    ensures ps != []
    ensures patterns.Some? && patterns.value != [] ==> ps == patterns.value
    ensures patterns.None? || patterns.value == [] ==> ps == DefaultPatterns
  {
    if patterns.Some? && patterns.value != [] then patterns.value else DefaultPatterns
  }

  /** `(mode or "block").lower()`: a missing or empty mode is `block`, any
      other is lower-cased, and the result is in lower case. */
  function ResolveMode(mode: Option<string>): (m: string)
    ensures Truthy(mode) ==> m == Lower(mode.value)
    ensures !Truthy(mode) ==> m == "block"
    ensures Lower(m) == m
  {
    var given := if Truthy(mode) then mode.value else "block";
    LowerIdempotent(given);
    assert Lower("block") == "block";
    Lower(given)
  }

  /** What a resolved mode selects: `off`, `block` and `mask` act; any other
      mode string goes through the scan and then allows. */
  datatype Filter = Off | Blocking | Masking | Unrecognised

  /** The mode comparisons of `apply_safety`, made on the resolved mode. */
  function FilterOf(m: string): Filter {
    if m == "off" then Off
    else if m == "block" then Blocking
    else if m == "mask" then Masking
    else Unrecognised
  }

  /** The state of the scan: the hits so far and the (possibly redacted) text. */
  datatype Scan = Scan(hits: seq<string>, masked: string)

  /** The scan over `ps` starting from `text`: each pattern is searched for in
      the text as the earlier patterns left it; a match is recorded and, when
      masking, redacted before the next pattern is tried. */
  function ScanPatterns(ps: seq<string>, text: string, masking: bool,
                        matches: Matcher, redact: Redactor): (sc: Scan)
    ensures |sc.hits| <= |ps|
    ensures !masking ==> sc.masked == text
    ensures sc.hits == [] ==> sc.masked == text
    decreases |ps|
  {
    if ps == [] then Scan([], text)
    else if matches(ps[0], text) then
      var rest := ScanPatterns(ps[1..], if masking then redact(ps[0], text) else text,
                               masking, matches, redact);
      Scan([ps[0]] + rest.hits, rest.masked)
    else ScanPatterns(ps[1..], text, masking, matches, redact)
  }

  /** What `apply_safety(text, mode, patterns)` returns. Mode `off` (in any
      letter case) allows the original text whatever the patterns match, and
      so does a mode other than `off`, `block` and `mask`. */
  function Evaluate(text: string, mode: Option<string>, patterns: Option<seq<string>>,
                    matches: Matcher, redact: Redactor): (v: Verdict)
    ensures ResolveMode(mode) == "off" ==> v == Allow(text)
    ensures ResolveMode(mode) !in {"off", "block", "mask"} ==> v == Allow(text)
  {
    Decide(text, FilterOf(ResolveMode(mode)), ResolvePatterns(patterns), matches, redact)
  }

  /** The verdict once the mode and the patterns are resolved: `off` allows
      without scanning; otherwise the scan runs (masking only in mask mode)
      and any hit blocks in block mode and masks in mask mode. */
  function Decide(text: string, f: Filter, ps: seq<string>,
                  matches: Matcher, redact: Redactor): (v: Verdict)
    ensures f == Off || f == Unrecognised ==> v == Allow(text)
    ensures v.Block? ==> f == Blocking && v.text == text
    ensures v.Mask? ==> f == Masking
    ensures v.Allow? ==> v.text == text
    ensures !v.Allow? ==> v.hits != [] && |v.hits| <= |ps|
  {
    if f == Off then Allow(text)
    else
      var sc := ScanPatterns(ps, text, f == Masking, matches, redact);
      if sc.hits != [] && f == Blocking then Block(text, sc.hits)
      else if sc.hits != [] && f == Masking then Mask(sc.masked, sc.hits)
      else Allow(text)
  }

  /** `apply_safety`: resolve the inputs, run the scan loop, choose the verdict. */
  method ApplySafety(text: string, mode: Option<string>, patterns: Option<seq<string>>,
                     matches: Matcher, redact: Redactor) returns (v: Verdict)
    ensures v == Evaluate(text, mode, patterns, matches, redact)
  {
    var ps := ResolvePatterns(patterns);
    var f := FilterOf(ResolveMode(mode));
    if f == Off {
      return Allow(text);
    }
    var hits, masked := ScanLoop(ps, text, f == Masking, matches, redact);
    if hits != [] && f == Blocking {
      return Block(text, hits);
    }
    if hits != [] && f == Masking {
      return Mask(masked, hits);
    }
    return Allow(text);
  }

  /** The loop of `apply_safety` over the patterns: it appends each pattern
      found to `hits` and, when masking, redacts it from `masked` before the
      next pattern is tried. */
  method ScanLoop(ps: seq<string>, text: string, masking: bool,
                  matches: Matcher, redact: Redactor) returns (hits: seq<string>, masked: string)
    ensures Scan(hits, masked) == ScanPatterns(ps, text, masking, matches, redact)
  {
    ghost var whole := ScanPatterns(ps, text, masking, matches, redact);
    hits := [];
    masked := text;
    for i := 0 to |ps|
      invariant var rest := ScanPatterns(ps[i..], masked, masking, matches, redact);
                hits + rest.hits == whole.hits && rest.masked == whole.masked
    {
      var p := ps[i];
      ScanStep(ps, i, masked, masking, matches, redact);
      if matches(p, masked) {
        ghost var before := hits;
        hits := hits + [p];
        if masking {
          masked := redact(p, masked);
        }
        ConcatAssoc(before, [p], ScanPatterns(ps[i + 1..], masked, masking, matches, redact).hits);
      }
    }
    assert ps[|ps|..] == [];
  }

  // ---------------------------------------------------------------------------
  // The scan
  // ---------------------------------------------------------------------------

  /** One step of the scan, at position `i` of the pattern list. */
  lemma ScanStep(ps: seq<string>, i: int, text: string, masking: bool,
                 matches: Matcher, redact: Redactor)
    requires 0 <= i < |ps|
    ensures ScanPatterns(ps[i..], text, masking, matches, redact)
            == if matches(ps[i], text) then
                 var rest := ScanPatterns(ps[i + 1..], if masking then redact(ps[i], text) else text,
                                          masking, matches, redact);
                 Scan([ps[i]] + rest.hits, rest.masked)
               else ScanPatterns(ps[i + 1..], text, masking, matches, redact)
  {
    assert ps[i..][1..] == ps[i + 1..];
  }

  /** `a` is a subsequence of `b`: `a` is `b` with some positions dropped, each
      position of `b` giving at most one element of `a`, in order. */
  predicate IsSubsequence<T(==)>(a: seq<T>, b: seq<T>)
    decreases |b|
  {
    if a == [] then true
    else if b == [] then false
    else (a[0] == b[0] && IsSubsequence(a[1..], b[1..])) || IsSubsequence(a, b[1..])
  }

  /** Some pattern of `ps` is found in `text`. */
  predicate AnyMatch(ps: seq<string>, text: string, matches: Matcher) {
    exists i :: 0 <= i < |ps| && matches(ps[i], text)
  }

  /** The patterns of `ps` found in `text`, in list order. */
  function MatchingPatterns(ps: seq<string>, text: string, matches: Matcher): seq<string>
    decreases |ps|
  {
    if ps == [] then []
    else if matches(ps[0], text) then [ps[0]] + MatchingPatterns(ps[1..], text, matches)
    else MatchingPatterns(ps[1..], text, matches)
  }

  /** The hits are a subsequence of the pattern list. */
  lemma {:induction false} HitsAreSubsequence(ps: seq<string>, text: string, masking: bool,
                                              matches: Matcher, redact: Redactor)
    ensures IsSubsequence(ScanPatterns(ps, text, masking, matches, redact).hits, ps)
    decreases |ps|
  {
    if ps != [] {
      var next := if masking then redact(ps[0], text) else text;
      if matches(ps[0], text) {
        HitsAreSubsequence(ps[1..], next, masking, matches, redact);
        var h := ScanPatterns(ps, text, masking, matches, redact).hits;
        assert h[0] == ps[0] && h[1..] == ScanPatterns(ps[1..], next, masking, matches, redact).hits;
      } else {
        HitsAreSubsequence(ps[1..], text, masking, matches, redact);
        SubsequenceOfTail(ScanPatterns(ps[1..], text, masking, matches, redact).hits, ps);
      }
    }
  }

  /** A subsequence of `b[1..]` is a subsequence of `b`. */
  lemma SubsequenceOfTail<T>(a: seq<T>, b: seq<T>)
    requires b != [] && IsSubsequence(a, b[1..])
    ensures IsSubsequence(a, b)
  {
  }

  /** Without masking the text never changes, and the hits are exactly the
      patterns found in it, in list order. */
  lemma {:induction false} ScanWithoutMasking(ps: seq<string>, text: string,
                                              matches: Matcher, redact: Redactor)
    ensures ScanPatterns(ps, text, false, matches, redact)
            == Scan(MatchingPatterns(ps, text, matches), text)
    decreases |ps|
  {
    if ps != [] {
      ScanWithoutMasking(ps[1..], text, matches, redact);
    }
  }

  /** Whether masking or not, there is a hit exactly when some pattern is found
      in the original text (the first pattern found sees the text unredacted),
      and with no hit the text comes back unchanged. */
  lemma {:induction false} HitIffAnyMatch(ps: seq<string>, text: string, masking: bool,
                                          matches: Matcher, redact: Redactor)
    ensures var sc := ScanPatterns(ps, text, masking, matches, redact);
            && (sc.hits != [] <==> AnyMatch(ps, text, matches))
            && (sc.hits == [] ==> sc.masked == text)
    decreases |ps|
  {
    if ps != [] && !matches(ps[0], text) {
      HitIffAnyMatch(ps[1..], text, masking, matches, redact);
      if AnyMatch(ps, text, matches) {
        var i :| 0 <= i < |ps| && matches(ps[i], text);
        assert ps[1..][i - 1] == ps[i];
      }
      if AnyMatch(ps[1..], text, matches) {
        var i :| 0 <= i < |ps[1..]| && matches(ps[1..][i], text);
        assert ps[i + 1] == ps[1..][i];
      }
    } else if ps != [] {
      assert matches(ps[0], text);
    }
  }

  // ---------------------------------------------------------------------------
  // Verdicts
  // ---------------------------------------------------------------------------

  /** The mode is compared after `lower()`: a mode and its lower-case form
      give the same verdict. */
  lemma ModeLetterCase(text: string, m: string, patterns: Option<seq<string>>,
                       matches: Matcher, redact: Redactor)
    ensures Evaluate(text, Some(m), patterns, matches, redact)
            == Evaluate(text, Some(Lower(m)), patterns, matches, redact)
  {
    LowerIdempotent(m);
    assert ResolveMode(Some(Lower(m))) == ResolveMode(Some(m));
  }

  /** A missing mode, an empty one and `block` give the same verdict. */
  lemma DefaultModeIsBlock(text: string, patterns: Option<seq<string>>,
                           matches: Matcher, redact: Redactor)
    ensures Evaluate(text, None, patterns, matches, redact)
            == Evaluate(text, Some(""), patterns, matches, redact)
            == Evaluate(text, Some("block"), patterns, matches, redact)
  {
    assert Lower("block") == "block";
    assert ResolveMode(Some("block")) == ResolveMode(None) == ResolveMode(Some(""));
  }

  /** Block mode: the text is blocked exactly when some pattern is found in it;
      a block returns the text unchanged with the patterns found, in list order. */
  lemma BlockMode(text: string, mode: Option<string>, patterns: Option<seq<string>>,
                  matches: Matcher, redact: Redactor)
    requires ResolveMode(mode) == "block"
    ensures var ps := ResolvePatterns(patterns);
            Evaluate(text, mode, patterns, matches, redact)
            == if AnyMatch(ps, text, matches)
               then Block(text, MatchingPatterns(ps, text, matches))
               else Allow(text)
  {
    var ps := ResolvePatterns(patterns);
    ScanWithoutMasking(ps, text, matches, redact);
    HitIffAnyMatch(ps, text, false, matches, redact);
  }

  /** Mask mode: the verdict is `mask` exactly when some pattern is found in the
      original text, and then it carries the redacted text of the scan and its
      hits, which are a non-empty subsequence of the pattern list. */
  lemma MaskMode(text: string, mode: Option<string>, patterns: Option<seq<string>>,
                 matches: Matcher, redact: Redactor)
    requires ResolveMode(mode) == "mask"
    ensures var ps := ResolvePatterns(patterns);
            var sc := ScanPatterns(ps, text, true, matches, redact);
            var v := Evaluate(text, mode, patterns, matches, redact);
            && (v.Mask? <==> AnyMatch(ps, text, matches))
            && (v.Mask? ==> v == Mask(sc.masked, sc.hits) && sc.hits != []
                            && IsSubsequence(sc.hits, ps))
            && (!v.Mask? ==> v == Allow(text))
  {
    var ps := ResolvePatterns(patterns);
    HitIffAnyMatch(ps, text, true, matches, redact);
    HitsAreSubsequence(ps, text, true, matches, redact);
  }

  /** Block never alters the text and only block mode blocks; only mask mode
      masks; an allow always returns the original text; hits, when reported,
      are a subsequence of the pattern list. */
  lemma VerdictShape(text: string, mode: Option<string>, patterns: Option<seq<string>>,
                     matches: Matcher, redact: Redactor)
    ensures var v := Evaluate(text, mode, patterns, matches, redact);
            var m := ResolveMode(mode);
            && (v.Block? ==> m == "block" && v.text == text)
            && (v.Mask? ==> m == "mask")
            && (v.Allow? ==> v.text == text)
            && (!v.Allow? ==> v.hits != [] && IsSubsequence(v.hits, ResolvePatterns(patterns)))
  {
    var f := FilterOf(ResolveMode(mode));
    if f != Off {
      HitsAreSubsequence(ResolvePatterns(patterns), text, f == Masking, matches, redact);
    }
  }

  // ---------------------------------------------------------------------------
  // A concrete engine: literal, case-sensitive substring patterns
  // ---------------------------------------------------------------------------

  /** Pattern as a literal substring (`p in s`). */
  function LiteralMatches(p: string, s: string): bool {
    Occurs(s, p)
  }

  /** Redaction of a literal pattern (`s.replace(p, "[REDACTED]")`). */
  function LiteralRedact(p: string, s: string): string {
    Replace(s, p, RedactionToken)
  }

  /** Block mode on `my password is 1234` with the literal pattern `password`:
      blocked, text unchanged, the one pattern reported. */
  lemma LiteralBlockExample(t: string, ps: seq<string>)
    requires t == "my password is 1234" && ps == ["password"]
    ensures Evaluate(t, Some("block"), Some(ps), LiteralMatches, LiteralRedact) == Block(t, ps)
  {
    assert t[3..3 + 8] == ps[0];
    assert OccursAt(t, ps[0], 3);
    assert LiteralMatches(ps[0], t);
    assert ps[1..] == [];
    assert ScanPatterns(ps[1..], t, false, LiteralMatches, LiteralRedact) == Scan([], t);
    assert ScanPatterns(ps, t, false, LiteralMatches, LiteralRedact) == Scan(ps, t);
    assert ResolvePatterns(Some(ps)) == ps;
    assert Lower("block") == "block";
    assert FilterOf(ResolveMode(Some("block"))) == Blocking;
  }
  /** Mask mode with one literal pattern found in the text: the verdict is
      `mask`, with every occurrence redacted and the pattern as the one hit. */
  lemma LiteralSinglePatternMask(text: string, mode: Option<string>, p: string)
    requires ResolveMode(mode) == "mask" && Occurs(text, p)
    ensures Evaluate(text, mode, Some([p]), LiteralMatches, LiteralRedact)
            == Mask(Replace(text, p, RedactionToken), [p])
  {
    var r := Replace(text, p, RedactionToken);
    assert LiteralMatches(p, text);
    assert [p][1..] == [];
    assert ScanPatterns([p][1..], r, true, LiteralMatches, LiteralRedact) == Scan([], r);
    assert ScanPatterns([p], text, true, LiteralMatches, LiteralRedact) == Scan([p], r);
  }
}
