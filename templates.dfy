/// `render_template` (clipai/templates.py): literal `{{key}}` substitution,
/// folded over the context's items in insertion order with `str.replace`.
module Templates {
  import opened PyStr

  /** A Python dict given by its (key, value) items in insertion order. */
  type Context = seq<(string, string)>

  /** The placeholder `{{k}}` that stands for the key `k`. */
  function Placeholder(k: string): (ph: string)
    ensures |ph| == |k| + 4
    ensures ph == "{{" + (k + "}}")
  {
    "{{" + k + "}}"
  }

  /** The left fold of the placeholder replacements over `ctx`: the text after
      the placeholder of every item, in order, has been replaced by its value.
      A text in which no key's placeholder occurs comes back unchanged,
      whatever the values: unknown placeholders stay verbatim. */
  function Substitute(text: string, ctx: Context): (r: string)
    ensures (forall i :: 0 <= i < |ctx| ==> !Occurs(text, Placeholder(ctx[i].0))) ==> r == text
    decreases |ctx|
  {
    if ctx == [] then text
    else
      var (k, v) := ctx[|ctx| - 1];
      var prev := Substitute(text, ctx[..|ctx| - 1]);
      assert !Occurs(text, Placeholder(k)) ==> Replace(text, Placeholder(k), v) == text by {
        if !Occurs(text, Placeholder(k)) {
          ReplaceAbsent(text, Placeholder(k), v);
        }
      }
      Replace(prev, Placeholder(k), v)
  }

  /** What `render_template(text, ctx)` returns: `None` renders as `""`, and a
      text without `{{` renders to itself for every context. */
  function Render(text: Option<string>, ctx: Context): (r: string)
    ensures text.None? ==> r == ""
    ensures text.Some? && !Occurs(text.value, "{{") ==> r == text.value
  {
    match text
    case None => ""
    case Some(t) =>
      assert !Occurs(t, "{{") ==> Substitute(t, ctx) == t by {
        if !Occurs(t, "{{") {
          forall i | 0 <= i < |ctx| ensures !Occurs(t, Placeholder(ctx[i].0)) {
            if Occurs(t, Placeholder(ctx[i].0)) {
              OccursPrefix(t, "{{", ctx[i].0 + "}}");
            }
          }
        }
      }
      Substitute(t, ctx)
  }

  /** `render_template`: the loop over `context.items()` that rebinds `out`. */
  method RenderTemplate(text: Option<string>, context: Context) returns (out: string)
    ensures out == Render(text, context)
    ensures text.None? ==> out == ""
    ensures text.Some? && context == [] ==> out == text.value
  {
    if text.None? {
      return "";
    }
    out := text.value;
    for i := 0 to |context|
      invariant out == Substitute(text.value, context[..i])
    {
      var (k, v) := context[i];
      assert context[..i + 1][..i] == context[..i];
      out := Replace(out, Placeholder(k), v);
    }
    assert context[..|context|] == context;
  }

  /** Folding over `a + b` is folding over `a`, then over `b`. */
  lemma {:induction false} SubstituteConcat(t: string, a: Context, b: Context)
    ensures Substitute(t, a + b) == Substitute(Substitute(t, a), b)
    decreases |b|
  {
    if b == [] {
      assert a + b == a;
    } else {
      var b' := b[..|b| - 1];
      assert (a + b)[..|a + b| - 1] == a + b';
      assert (a + b)[|a + b| - 1] == b[|b| - 1];
      SubstituteConcat(t, a, b');
    }
  }

  /** A later item is replaced in the output of the earlier ones: rendering
      with one more item is one more `replace` on the previous result. */
  lemma RenderAppend(t: string, ctx: Context, k: string, v: string)
    ensures Render(Some(t), ctx + [(k, v)]) == Replace(Render(Some(t), ctx), Placeholder(k), v)
  {
    SubstituteConcat(t, ctx, [(k, v)]);
  }

  /** An item whose value is its own placeholder changes nothing. */
  lemma SelfValuedItemIsNeutral(t: string, a: Context, k: string, b: Context)
    ensures Render(Some(t), a + [(k, Placeholder(k))] + b) == Render(Some(t), a + b)
  {
    SubstituteConcat(t, a + [(k, Placeholder(k))], b);
    SubstituteConcat(t, a, [(k, Placeholder(k))]);
    ReplaceBySelf(Substitute(t, a), Placeholder(k));
    SubstituteConcat(t, a, b);
  }

  /** The length of one replacement step: each of the `n` non-overlapping
      occurrences of `{{k}}` trades its `|k| + 4` characters for `|v|`. */
  lemma StepLength(t: string, ctx: Context, k: string, v: string)
    ensures var before := Render(Some(t), ctx);
            |Render(Some(t), ctx + [(k, v)])|
              == |before| + Count(before, Placeholder(k)) * (|v| - (|k| + 4))
  {
    RenderAppend(t, ctx, k, v);
    ReplaceLength(Render(Some(t), ctx), Placeholder(k), v);
  }

  /** The order of the items matters: the value `{{b}}` put in by the item
      for `a` is itself replaced by the later item for `b`, but not when the
      item for `b` comes first. */
  lemma LaterItemSeesEarlierValue()
    ensures Render(Some("{{a}}"), [("a", "{{b}}"), ("b", "X")]) == "X"
    ensures Render(Some("{{a}}"), [("b", "X"), ("a", "{{b}}")]) == "{{b}}"
  {
    assert Placeholder("a") == "{{a}}";
    assert Placeholder("b") == "{{b}}";
    var c1: Context := [("a", "{{b}}"), ("b", "X")];
    assert c1[..1] == [("a", "{{b}}")];
    assert c1[..1][..0] == [];
    ReplaceWhole("{{a}}", "{{b}}");
    ReplaceWhole("{{b}}", "X");
    assert Substitute("{{a}}", c1[..1]) == "{{b}}";
    var c2: Context := [("b", "X"), ("a", "{{b}}")];
    assert c2[..1] == [("b", "X")];
    assert c2[..1][..0] == [];
    assert !Occurs("{{a}}", "{{b}}") by {
      assert "{{a}}"[0..5] != "{{b}}" by { assert "{{a}}"[2] != "{{b}}"[2]; }
      assert !OccursAt("{{a}}", "{{b}}", 0);
    }
    ReplaceAbsent("{{a}}", "{{b}}", "X");
    assert Substitute("{{a}}", c2[..1]) == "{{a}}";
  }

  /** `s` contains neither `{` nor `}`. */
  predicate BraceFree(s: string) {
    forall i :: 0 <= i < |s| ==> s[i] != '{' && s[i] != '}'
  }

  /** The placeholder of another key never occurs in the placeholder `{{x}}`
      of a brace-free name `x`. */
  lemma OtherPlaceholderAbsent(x: string, k: string)
    requires k != x && BraceFree(x)
    ensures !Occurs(Placeholder(x), Placeholder(k))
  {
    var px, pk := Placeholder(x), Placeholder(k);
    forall i | 0 <= i <= |px| - |pk| ensures !OccursAt(px, pk, i) {
      if |k| == |x| {
        assert i == 0 && px[..|pk|] == px;
        PlaceholderInjective(x, k);
      } else {
        var j := i + |k| + 2;
        if j <= |x| + 1 {
          assert px[j] == x[j - 2];
          assert pk[|k| + 2] == '}';
          assert px[i..i + |pk|][|k| + 2] != pk[|k| + 2];
        } else {
          assert px[i + 1] == x[i - 1];
          assert pk[1] == '{';
          assert px[i..i + |pk|][1] != pk[1];
        }
      }
    }
  }

  /** Distinct keys have distinct placeholders. */
  lemma PlaceholderInjective(x: string, k: string)
    ensures Placeholder(x) == Placeholder(k) ==> x == k
  {
    if Placeholder(x) == Placeholder(k) {
      assert x == Placeholder(x)[2..|x| + 2];
    }
  }

  /** A placeholder that is the whole template, with a brace-free name that is
      no key of the context, is left verbatim (whatever the keys). */
  lemma LonePlaceholderKept(x: string, ctx: Context)
    requires BraceFree(x)
    requires forall i :: 0 <= i < |ctx| ==> ctx[i].0 != x
    ensures Render(Some(Placeholder(x)), ctx) == Placeholder(x)
  {
    forall i | 0 <= i < |ctx| ensures !Occurs(Placeholder(x), Placeholder(ctx[i].0)) {
      OtherPlaceholderAbsent(x, ctx[i].0);
    }
  }

  /** Where the braces of the placeholder of a brace-free key are: the first
      two characters are `{`, the last two `}`, and no others are braces. */
  lemma PlaceholderBraces(k: string)
    requires BraceFree(k)
    ensures forall j :: 0 <= j < |k| + 4 ==>
              && (Placeholder(k)[j] == '{' <==> j < 2)
              && (Placeholder(k)[j] == '}' <==> j >= |k| + 2)
  {
    forall j | 0 <= j < |k| + 4
      ensures && (Placeholder(k)[j] == '{' <==> j < 2)
              && (Placeholder(k)[j] == '}' <==> j >= |k| + 2)
    {
      if 2 <= j < |k| + 2 {
        assert Placeholder(k)[j] == k[j - 2];
      }
    }
  }

  /** No placeholder of a brace-free key straddles the start of a text that
      begins with `{{`. */
  lemma NoStraddleBeforeBraces(a: string, t: string, k: string)
    requires BraceFree(k) && |t| >= 2 && t[0] == '{' && t[1] == '{'
    ensures NoStraddle(a, t, Placeholder(k))
  {
    var pk := Placeholder(k);
    PlaceholderBraces(k);
    forall i | 0 <= i < |a| < i + |pk| <= |a| + |t| ensures !OccursAt(a + t, pk, i) {
      var d := |a| - i;
      var s := a + t;
      if d == 1 {
        assert s[i..i + |pk|][2] == s[|a| + 1] == t[1];
        assert pk[2] != '{';
      } else {
        assert s[i..i + |pk|][d] == s[|a|] == t[0];
        assert pk[d] != '{';
      }
    }
  }

  /** No placeholder of another brace-free key straddles the end of the
      placeholder of a brace-free name. */
  lemma NoStraddleAfterPlaceholder(x: string, b: string, k: string)
    requires BraceFree(x) && BraceFree(k) && k != x
    ensures NoStraddle(Placeholder(x), b, Placeholder(k))
  {
    var px, pk := Placeholder(x), Placeholder(k);
    PlaceholderBraces(x);
    PlaceholderBraces(k);
    forall i | 0 <= i < |px| < i + |pk| <= |px| + |b| ensures !OccursAt(px + b, pk, i) {
      var s := px + b;
      if i == 0 {
        assert s[i..i + |pk|][|x| + 2] == px[|x| + 2] == '}';
        assert pk[|x| + 2] != '}';
      } else if i == 1 {
        assert s[i..i + |pk|][1] == px[2];
        assert px[2] != '{';
      } else {
        assert s[i..i + |pk|][0] == px[i];
        assert px[i] != '{';
      }
    }
  }

  /** One replacement step passes over the placeholder of a brace-free name
      that is not the key, and works on the text on each side of it alone. */
  lemma ReplaceAround(a: string, x: string, b: string, k: string, v: string)
    requires BraceFree(x) && BraceFree(k) && k != x
    ensures Replace(a + Placeholder(x) + b, Placeholder(k), v)
            == Replace(a, Placeholder(k), v) + Placeholder(x) + Replace(b, Placeholder(k), v)
  {
    var px, pk := Placeholder(x), Placeholder(k);
    assert a + px + b == a + (px + b);
    NoStraddleBeforeBraces(a, px + b, k);
    ReplaceSplit(a, px + b, pk, v);
    NoStraddleAfterPlaceholder(x, b, k);
    ReplaceSplit(px, b, pk, v);
    OtherPlaceholderAbsent(x, k);
    ReplaceAbsent(px, pk, v);
    ConcatAssoc(Replace(a, pk, v), px, Replace(b, pk, v));
  }

  /** A placeholder whose brace-free name is no key of the context is left
      verbatim wherever it stands in the template, and the text on each side
      of it is rendered as if alone, provided every key is brace-free. */
  lemma {:induction false} UnknownPlaceholderKept(a: string, x: string, b: string, ctx: Context)
    requires BraceFree(x)
    requires forall i :: 0 <= i < |ctx| ==> BraceFree(ctx[i].0) && ctx[i].0 != x
    ensures Substitute(a + Placeholder(x) + b, ctx)
            == Substitute(a, ctx) + Placeholder(x) + Substitute(b, ctx)
    decreases |ctx|
  {
    if ctx != [] {
      var (k, v) := ctx[|ctx| - 1];
      UnknownPlaceholderKept(a, x, b, ctx[..|ctx| - 1]);
      ReplaceAround(Substitute(a, ctx[..|ctx| - 1]), x, Substitute(b, ctx[..|ctx| - 1]), k, v);
    }
  }

  /** Why the keys must be brace-free: the key `{x` swallows the placeholder
      `{{x}}` that follows a `{`, although `x` is no key. */
  lemma BraceKeySwallowsPlaceholder()
    ensures Render(Some("{{{x}}"), [("{x", "Z")]) == "Z"
  {
    assert Placeholder("{x") == "{{{x}}";
    ReplaceWhole("{{{x}}", "Z");
    assert Substitute("{{{x}}", [("{x", "Z")][..0]) == "{{{x}}";
  }
}
