/**
 * Rendering the editor's run script: the template text with its three
 * placeholders replaced, the two directories written with forward slashes.
 */
module Template {
  import opened Wrappers
  import Collections

  const PrefixToken := "PLACEHOLDER_PREFIX"
  const InputToken := "PLACEHOLDER_INPUT"
  const OutputToken := "PLACEHOLDER_OUTPUT"

  predicate OccursAt(s: string, t: string, i: int)
  {
    0 <= i && i + |t| <= |s| && s[i..i + |t|] == t
  }

  predicate Occurs(s: string, t: string)
  {
    exists i :: 0 <= i <= |s| && OccursAt(s, t, i)
  }

  lemma OccursInTail(s: string, t: string, i: int)
    requires |s| > 0 && OccursAt(s[1..], t, i)
    ensures OccursAt(s, t, i + 1)
  {
    assert s[1..][i..i + |t|] == s[i + 1..i + 1 + |t|];
  }

  /** Python's `s.replace(t, r)`: every non-overlapping occurrence, scanning left to right. */
  function ReplaceAll(s: string, t: string, r: string): string
    requires |t| > 0
    decreases |s|
  {
    if |s| < |t| then s
    else if s[..|t|] == t then r + ReplaceAll(s[|t|..], t, r)
    else [s[0]] + ReplaceAll(s[1..], t, r)
  }

  /** A text without the placeholder is left as it is. */
  lemma {:induction false} ReplaceAllAbsent(s: string, t: string, r: string)
    requires |t| > 0 && !Occurs(s, t)
    ensures ReplaceAll(s, t, r) == s
    decreases |s|
  {
    if |s| >= |t| {
      assert s[..|t|] != t by {
        assert !OccursAt(s, t, 0);
      }
      assert !Occurs(s[1..], t) by {
        if Occurs(s[1..], t) {
          var i :| 0 <= i <= |s[1..]| && OccursAt(s[1..], t, i);
          OccursInTail(s, t, i);
        }
      }
      ReplaceAllAbsent(s[1..], t, r);
    }
  }

  /**
   * When the first occurrence of `t` starts at `n`, everything before it is
   * kept, that occurrence becomes `r`, and the scan resumes after it.
   */
  lemma {:induction false} ReplaceAllFirst(s: string, t: string, r: string, n: nat)
    requires |t| > 0 && OccursAt(s, t, n)
    requires forall i :: 0 <= i < n ==> !OccursAt(s, t, i)
    ensures ReplaceAll(s, t, r) == s[..n] + r + ReplaceAll(s[n + |t|..], t, r)
    decreases n
  {
    if n == 0 {
      assert s[..|t|] == t;
      assert s[..0] + r == r;
    } else {
      ShiftOccurrences(s, t, n);
      ReplaceAllFirst(s[1..], t, r, n - 1);
      ReplaceAllSkip(s, t, r);
      assert [s[0]] + s[1..][..n - 1] == s[..n];
      Glue(ReplaceAll(s, t, r), s[0], ReplaceAll(s[1..], t, r), s[1..][..n - 1], r,
           ReplaceAll(s[1..][n - 1 + |t|..], t, r), ReplaceAll(s[n + |t|..], t, r), s[..n]);
    }
  }

  /** The last step of `ReplaceAllFirst`, with the replaced texts as plain values. */
  lemma Glue<T>(whole: seq<T>, c: T, sub: seq<T>, head: seq<T>, r: seq<T>, tail: seq<T>, tail': seq<T>, pre: seq<T>)
    requires whole == [c] + sub && sub == head + r + tail && tail == tail' && [c] + head == pre
    ensures whole == pre + r + tail'
  {
    Collections.Associative([c], head + r, tail);
    Collections.Associative([c], head, r);
  }

  /** Without an occurrence at 0, the first occurrence in `s[1..]` is one position earlier. */
  lemma ShiftOccurrences(s: string, t: string, n: nat)
    requires n > 0 && OccursAt(s, t, n)
    requires forall i :: 0 <= i < n ==> !OccursAt(s, t, i)
    ensures OccursAt(s[1..], t, n - 1)
    ensures forall i :: 0 <= i < n - 1 ==> !OccursAt(s[1..], t, i)
    ensures s[1..][n - 1 + |t|..] == s[n + |t|..]
  {
    assert s[1..][n - 1..n - 1 + |t|] == s[n..n + |t|];
    forall i | 0 <= i < n - 1 ensures !OccursAt(s[1..], t, i) {
      if OccursAt(s[1..], t, i) {
        OccursInTail(s, t, i);
      }
    }
  }

  /** A text that does not start with `t` keeps its first character. */
  lemma ReplaceAllSkip(s: string, t: string, r: string)
    requires |t| > 0 && |s| > 0 && !OccursAt(s, t, 0)
    ensures ReplaceAll(s, t, r) == [s[0]] + ReplaceAll(s[1..], t, r)
  {
  }

  /** The splice form of `ReplaceAllFirst`: one occurrence after `x`, none in `y`. */
  lemma ReplaceAllSplice(x: string, t: string, y: string, r: string)
    requires |t| > 0
    requires forall i :: 0 <= i < |x| ==> !OccursAt(x + t + y, t, i)
    requires !Occurs(y, t)
    ensures ReplaceAll(x + t + y, t, r) == x + r + y
  {
    var s := x + t + y;
    assert OccursAt(s, t, |x|) by {
      assert s[|x|..|x| + |t|] == t;
    }
    ReplaceAllFirst(s, t, r, |x|);
    assert s[..|x|] == x;
    assert s[|x| + |t|..] == y;
    ReplaceAllAbsent(y, t, r);
  }

  /** Replacing a one-character text rewrites each such character and leaves the others. */
  lemma {:induction false} ReplaceCharAt(s: string, c: char, d: char)
    ensures |ReplaceAll(s, [c], [d])| == |s|
    ensures forall i :: 0 <= i < |s| ==> ReplaceAll(s, [c], [d])[i] == if s[i] == c then d else s[i]
    decreases |s|
  {
    if s != [] {
      ReplaceCharAt(s[1..], c, d);
      assert s[..1] == [s[0]];
    }
  }

  /** `path.replace(os.sep, "/")`. */
  function Slashed(path: string, sep: char): string
  {
    ReplaceAll(path, [sep], "/")
  }

  lemma SlashedShape(path: string, sep: char)
    ensures |Slashed(path, sep)| == |path|
    ensures forall i :: 0 <= i < |path| ==> Slashed(path, sep)[i] == if path[i] == sep then '/' else path[i]
    ensures sep != '/' ==> forall i :: 0 <= i < |path| ==> Slashed(path, sep)[i] != sep
  {
    ReplaceCharAt(path, sep, '/');
  }

  datatype ScriptError = TemplateMissing

  /**
   * `create_jsx_for_run`: the text written to the run script, or the
   * not-found error re-raised when the template cannot be read (`None`).
   */
  function RenderScript(template: Option<string>, prefix: string, inputDir: string, outputDir: string, sep: char)
    : (r: Result<string, ScriptError>)
    ensures r.Failure? <==> template.None?
    ensures r.Failure? ==> r.error == TemplateMissing
  {
    if template.None? then Failure(TemplateMissing)
    else
      var content := ReplaceAll(template.value, PrefixToken, prefix);
      var content := ReplaceAll(content, InputToken, Slashed(inputDir, sep));
      var content := ReplaceAll(content, OutputToken, Slashed(outputDir, sep));
      Success(content)
  }

  /**
   * A template holding each placeholder once, in the order prefix, input,
   * output, and nothing else that matches a placeholder while it is being
   * rendered, comes out as the pieces around the placeholders with the prefix
   * verbatim and the directories with forward slashes.
   */
  lemma RenderSubstitutes(a: string, b: string, c: string, d: string,
                          prefix: string, inputDir: string, outputDir: string, sep: char)
    requires var t := a + PrefixToken + b + InputToken + c + OutputToken + d;
      (forall i :: 0 <= i < |a| ==> !OccursAt(t, PrefixToken, i)) &&
      !Occurs(b + InputToken + c + OutputToken + d, PrefixToken)
    requires var t := a + prefix + b + InputToken + c + OutputToken + d;
      (forall i :: 0 <= i < |a + prefix + b| ==> !OccursAt(t, InputToken, i)) &&
      !Occurs(c + OutputToken + d, InputToken)
    requires var t := a + prefix + b + Slashed(inputDir, sep) + c + OutputToken + d;
      (forall i :: 0 <= i < |a + prefix + b + Slashed(inputDir, sep) + c| ==> !OccursAt(t, OutputToken, i)) &&
      !Occurs(d, OutputToken)
    ensures RenderScript(Some(a + PrefixToken + b + InputToken + c + OutputToken + d), prefix, inputDir, outputDir, sep)
      == Success(a + prefix + b + Slashed(inputDir, sep) + c + Slashed(outputDir, sep) + d)
  {
    SubstituteThree(a, b, c, d, PrefixToken, InputToken, OutputToken,
                    prefix, Slashed(inputDir, sep), Slashed(outputDir, sep));
  }

  /** Three replacements in a row, each of a placeholder that occurs once, at a known place. */
  lemma SubstituteThree(a: string, b: string, c: string, d: string, tp: string, ti: string, to: string,
                        vp: string, vi: string, vo: string)
    requires |tp| > 0 && |ti| > 0 && |to| > 0
    requires var t := a + tp + b + ti + c + to + d;
      (forall i :: 0 <= i < |a| ==> !OccursAt(t, tp, i)) && !Occurs(b + ti + c + to + d, tp)
    requires var t := a + vp + b + ti + c + to + d;
      (forall i :: 0 <= i < |a + vp + b| ==> !OccursAt(t, ti, i)) && !Occurs(c + to + d, ti)
    requires var t := a + vp + b + vi + c + to + d;
      (forall i :: 0 <= i < |a + vp + b + vi + c| ==> !OccursAt(t, to, i)) && !Occurs(d, to)
    ensures ReplaceAll(ReplaceAll(ReplaceAll(a + tp + b + ti + c + to + d, tp, vp), ti, vi), to, vo)
      == a + vp + b + vi + c + vo + d
  {
    FirstOfThree(a, b, c, d, tp, ti, to, vp);
    SecondOfThree(a, b, c, d, vp, ti, to, vi);
    ThirdOfThree(a, b, c, d, vp, vi, to, vo);
  }

  lemma FirstOfThree(a: string, b: string, c: string, d: string, tp: string, ti: string, to: string, vp: string)
    requires |tp| > 0
    requires var t := a + tp + b + ti + c + to + d;
      (forall i :: 0 <= i < |a| ==> !OccursAt(t, tp, i)) && !Occurs(b + ti + c + to + d, tp)
    ensures ReplaceAll(a + tp + b + ti + c + to + d, tp, vp) == a + vp + b + ti + c + to + d
  {
    var y := b + ti + c + to + d;
    Regroup(a + tp, b, ti, c, to, d);
    ReplaceAllSplice(a, tp, y, vp);
    Regroup(a + vp, b, ti, c, to, d);
  }

  lemma SecondOfThree(a: string, b: string, c: string, d: string, vp: string, ti: string, to: string, vi: string)
    requires |ti| > 0
    requires var t := a + vp + b + ti + c + to + d;
      (forall i :: 0 <= i < |a + vp + b| ==> !OccursAt(t, ti, i)) && !Occurs(c + to + d, ti)
    ensures ReplaceAll(a + vp + b + ti + c + to + d, ti, vi) == a + vp + b + vi + c + to + d
  {
    var x, y := a + vp + b, c + to + d;
    Regroup3(x + ti, c, to, d);
    ReplaceAllSplice(x, ti, y, vi);
    Regroup3(x + vi, c, to, d);
  }

  lemma ThirdOfThree(a: string, b: string, c: string, d: string, vp: string, vi: string, to: string, vo: string)
    requires |to| > 0
    requires var t := a + vp + b + vi + c + to + d;
      (forall i :: 0 <= i < |a + vp + b + vi + c| ==> !OccursAt(t, to, i)) && !Occurs(d, to)
    ensures ReplaceAll(a + vp + b + vi + c + to + d, to, vo) == a + vp + b + vi + c + vo + d
  {
    ReplaceAllSplice(a + vp + b + vi + c, to, d, vo);
  }

  /** `p + b + c + d + e` regrouped as `p + (b + c + d + e)`. */
  lemma Regroup(p: string, b: string, c: string, d: string, e: string, f: string)
    ensures p + b + c + d + e + f == p + (b + c + d + e + f)
  {
    Collections.Associative(p, b, c);
    Collections.Associative(p, b + c, d);
    Collections.Associative(p, b + c + d, e);
    Collections.Associative(p, b + c + d + e, f);
  }

  /** `p + c + d + e` regrouped as `p + (c + d + e)`. */
  lemma Regroup3(p: string, c: string, d: string, e: string)
    ensures p + c + d + e == p + (c + d + e)
  {
    Collections.Associative(p, c, d);
    Collections.Associative(p, c + d, e);
  }
}
