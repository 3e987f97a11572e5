/** `_clean_json_string`, which both analyzers apply to an LLM reply before
    decoding it: a fixed chain of whitespace and fence strips followed by five
    regular-expression rewrites.  Each step is a function on `seq<char>`.

    The steps take the whitespace class as a parameter `ws`; the cleanup
    itself uses `Whitespace`, the class of Python's `str.isspace()` and of
    `\s`.  The lemmas hold for any class that contains the newline and none
    of the four brackets. */
module JsonCleanup {

  /** The argument of `lstrip('```json')`, read by Python as a set of
      characters, not as a prefix. */
  const FenceChars: iset<char> := iset{'`', 'j', 's', 'o', 'n'}

  /** The argument of `rstrip('```')`. */
  const Backticks: iset<char> := iset{'`'}

  /** The characters Python's `str.isspace()` accepts, as code point ranges;
      the `\s` class of a `re` pattern on `str` accepts the same ones. */
  predicate IsSpace(c: char) {
    || '\t' <= c <= '\r'
    || '\U{1C}' <= c <= ' '
    || c == '\U{85}' || c == '\U{A0}' || c == '\U{1680}'
    || '\U{2000}' <= c <= '\U{200A}'
    || c == '\U{2028}' || c == '\U{2029}' || c == '\U{202F}' || c == '\U{205F}' || c == '\U{3000}'
  }

  /** The same characters as a set. */
  const Whitespace: iset<char> := iset c | IsSpace(c)

  /** What the lemmas ask of a whitespace class. */
  predicate SpaceClass(ws: iset<char>) {
    '\n' in ws && '[' !in ws && ']' !in ws && '{' !in ws && '}' !in ws
  }

  lemma WhitespaceIsSpaceClass()
    ensures SpaceClass(Whitespace)
  {
    assert IsSpace('\n');
    assert !IsSpace('[') && !IsSpace(']') && !IsSpace('{') && !IsSpace('}');
  }

  // ---------------------------------------------------------------------
  // The string operations

  /** How many characters of `cs` start `s`. */
  function LeadingRun(s: string, cs: iset<char>): (k: nat)
    ensures k <= |s|
    ensures k < |s| ==> s[k] !in cs
    decreases |s|
  {
    if s != [] && s[0] in cs then 1 + LeadingRun(s[1..], cs) else 0
  }

  /** Where the run of `cs` characters that ends `s` starts. */
  function TrailingStart(s: string, cs: iset<char>): (k: nat)
    ensures k <= |s|
    ensures k > 0 ==> s[k - 1] !in cs
    decreases |s|
  {
    if s != [] && s[|s| - 1] in cs then TrailingStart(s[..|s| - 1], cs) else |s|
  }

  /** `s.lstrip(cs)`. */
  function LStrip(s: string, cs: iset<char>): string {
    s[LeadingRun(s, cs)..]
  }

  /** `s.rstrip(cs)`. */
  function RStrip(s: string, cs: iset<char>): string {
    s[..TrailingStart(s, cs)]
  }

  /** `s.strip()`, for the whitespace class `ws`. */
  function Strip(s: string, ws: iset<char>): string {
    RStrip(LStrip(s, ws), ws)
  }

  /** `re.sub(r'<open>\s+', '<open>', s)`: the whitespace run right after
      each `open` is deleted. */
  function SqueezeAfter(s: string, open: char, ws: iset<char>): string
    decreases |s|
  {
    if s == [] then []
    else if s[0] == open then [open] + SqueezeAfter(LStrip(s[1..], ws), open, ws)
    else [s[0]] + SqueezeAfter(s[1..], open, ws)
  }

  /** `re.sub(r'\s+<close>', '<close>', s)`: each maximal whitespace run
      that is directly followed by `close` is deleted. */
  function SqueezeBefore(s: string, close: char, ws: iset<char>): string
    decreases |s|
  {
    if s == [] then []
    else if s[0] in ws then
      var k := LeadingRun(s, ws);
      if k < |s| && s[k] == close then SqueezeBefore(s[k..], close, ws)
      else s[..k] + SqueezeBefore(s[k..], close, ws)
    else [s[0]] + SqueezeBefore(s[1..], close, ws)
  }

  /** Just past the last newline of `p`; 0 if `p` has none. */
  function LastNewlineEnd(p: string): (k: nat)
    ensures k <= |p|
    ensures k > 0 ==> p[k - 1] == '\n'
    decreases |p|
  {
    if p == [] then 0
    else if p[|p| - 1] == '\n' then |p|
    else LastNewlineEnd(p[..|p| - 1])
  }

  /** How far `\s*\n` reaches at the start of `t`: the regex engine takes
      the whole whitespace run greedily and backs off to its last newline
      (0 when the run has none). */
  function BlankSpan(t: string, ws: iset<char>): (k: nat)
    ensures k <= LeadingRun(t, ws)
    ensures k > 0 ==> t[k - 1] == '\n'
  {
    LastNewlineEnd(t[..LeadingRun(t, ws)])
  }

  /** `re.sub(r'\n\s*\n', '\n', s)`: within each whitespace run, everything
      from its first newline to its last newline becomes one newline. */
  function CollapseBlankLines(s: string, ws: iset<char>): string
    decreases |s|
  {
    if s == [] then []
    else if s[0] == '\n' then
      var rest := s[1..];
      ['\n'] + CollapseBlankLines(rest[BlankSpan(rest, ws)..], ws)
    else [s[0]] + CollapseBlankLines(s[1..], ws)
  }

  /** The first three lines of `_clean_json_string`: strip, drop the fence
      characters, strip again. */
  function Unfence(s: string, ws: iset<char>): string {
    Strip(RStrip(LStrip(Strip(s, ws), FenceChars), Backticks), ws)
  }

  /** The two rewrites around one pair of brackets. */
  function SqueezePair(s: string, open: char, close: char, ws: iset<char>): string {
    SqueezeBefore(SqueezeAfter(s, open, ws), close, ws)
  }

  /** The whole cleanup, for the whitespace class `ws`. */
  function Clean(s: string, ws: iset<char>): string {
    CollapseBlankLines(SqueezePair(SqueezePair(Unfence(s, ws), '[', ']', ws), '{', '}', ws), ws)
  }

  /** `_clean_json_string`. */
  function CleanJsonString(s: string): string {
    Clean(s, Whitespace)
  }

  // ---------------------------------------------------------------------
  // What the strips and the newline search drop

  /** The leading run holds characters of `cs` only. */
  lemma {:induction false} LeadingRunIsBlank(s: string, cs: iset<char>)
    ensures forall i :: 0 <= i < LeadingRun(s, cs) ==> s[i] in cs
    decreases |s|
  {
    if s != [] && s[0] in cs {
      var t := s[1..];
      LeadingRunIsBlank(t, cs);
      forall i | 1 <= i < LeadingRun(s, cs) ensures s[i] in cs {
        assert s[i] == t[i - 1];
      }
    }
  }

  /** The trailing run holds characters of `cs` only. */
  lemma {:induction false} TrailingRunIsBlank(s: string, cs: iset<char>)
    ensures forall i :: TrailingStart(s, cs) <= i < |s| ==> s[i] in cs
    decreases |s|
  {
    if s != [] && s[|s| - 1] in cs {
      var t := s[..|s| - 1];
      TrailingRunIsBlank(t, cs);
      forall i | TrailingStart(s, cs) <= i < |t| ensures s[i] in cs {
        assert s[i] == t[i];
      }
    }
  }

  /** A prefix of `cs` characters followed by one outside `cs` is the
      leading run. */
  lemma {:induction false} LeadingRunOf(s: string, cs: iset<char>, k: nat)
    requires k <= |s|
    requires forall i :: 0 <= i < k ==> s[i] in cs
    requires k < |s| ==> s[k] !in cs
    ensures LeadingRun(s, cs) == k
    decreases k
  {
    if k > 0 {
      var t := s[1..];
      forall i | 0 <= i < k - 1 ensures t[i] in cs {
        assert t[i] == s[i + 1];
      }
      LeadingRunOf(t, cs, k - 1);
    }
  }

  /** A suffix of `cs` characters preceded by one outside `cs` is the
      trailing run. */
  lemma {:induction false} TrailingStartOf(s: string, cs: iset<char>, k: nat)
    requires k <= |s|
    requires forall i :: k <= i < |s| ==> s[i] in cs
    requires k > 0 ==> s[k - 1] !in cs
    ensures TrailingStart(s, cs) == k
    decreases |s| - k
  {
    if k < |s| {
      var t := s[..|s| - 1];
      forall i | k <= i < |t| ensures t[i] in cs {
        assert t[i] == s[i];
      }
      TrailingStartOf(t, cs, k);
    }
  }

  /** `LastNewlineEnd` finds the last newline. */
  lemma {:induction false} LastNewlineEndIsLast(p: string)
    ensures forall i :: LastNewlineEnd(p) <= i < |p| ==> p[i] != '\n'
    decreases |p|
  {
    if p != [] && p[|p| - 1] != '\n' {
      var q := p[..|p| - 1];
      LastNewlineEndIsLast(q);
      forall i | LastNewlineEnd(p) <= i < |q| ensures p[i] != '\n' {
        assert p[i] == q[i];
      }
    }
  }

  /** `BlankSpan` covers whitespace only, and no newline of the whitespace
      run at the start of `t` lies beyond it. */
  lemma BlankSpanIsGreedy(t: string, ws: iset<char>)
    ensures forall i :: 0 <= i < BlankSpan(t, ws) ==> t[i] in ws
    ensures forall i :: BlankSpan(t, ws) <= i < LeadingRun(t, ws) ==> t[i] != '\n'
  {
    var p := t[..LeadingRun(t, ws)];
    LeadingRunIsBlank(t, ws);
    LastNewlineEndIsLast(p);
    assert forall i :: 0 <= i < |p| ==> p[i] == t[i];
  }

  // ---------------------------------------------------------------------
  // The result is trimmed and never longer

  /** Neither end of `s` is whitespace. */
  predicate Trimmed(s: string, ws: iset<char>) {
    s == [] || (s[0] !in ws && s[|s| - 1] !in ws)
  }

  /** `r` is no longer than `s`, starts as `s` does when `s` starts with
      a character that is not whitespace (or with anything, when `first`),
      and ends as `s` does when `s` ends with a character that is not
      whitespace. */
  predicate KeepsEnds(s: string, r: string, first: bool, ws: iset<char>) {
    && |r| <= |s|
    && (s != [] && (first || s[0] !in ws) ==> r != [] && r[0] == s[0])
    && (s != [] && s[|s| - 1] !in ws ==> r != [] && r[|r| - 1] == s[|s| - 1])
  }

  lemma StripIsTrimmed(s: string, ws: iset<char>)
    ensures Trimmed(Strip(s, ws), ws) && |Strip(s, ws)| <= |s|
  {
    var l := LStrip(s, ws);
    var r := RStrip(l, ws);
    if r != [] {
      assert r[0] == l[0];
    }
  }

  /** Putting `p` in front of a non-empty `q` keeps its last character. */
  lemma AppendKeepsLast(p: string, q: string)
    requires q != []
    ensures (p + q)[|p + q| - 1] == q[|q| - 1]
  {
  }

  lemma {:induction false} SqueezeAfterKeepsEnds(s: string, open: char, ws: iset<char>)
    ensures KeepsEnds(s, SqueezeAfter(s, open, ws), true, ws)
    decreases |s|
  {
    if s != [] {
      var rest := s[1..];
      var last := s[|s| - 1];
      if s[0] == open {
        var t := LStrip(rest, ws);
        var q := SqueezeAfter(t, open, ws);
        assert SqueezeAfter(s, open, ws) == [open] + q;
        SqueezeAfterKeepsEnds(t, open, ws);
        if t != [] {
          assert t[|t| - 1] == last;
          AppendKeepsLast([open], q);
        } else if rest != [] {
          LeadingRunIsBlank(rest, ws);
          assert rest[|rest| - 1] == last;
        }
      } else {
        var q := SqueezeAfter(rest, open, ws);
        assert SqueezeAfter(s, open, ws) == [s[0]] + q;
        SqueezeAfterKeepsEnds(rest, open, ws);
        if rest != [] {
          assert rest[|rest| - 1] == last;
          AppendKeepsLast([s[0]], q);
        }
      }
    }
  }

  lemma {:induction false} SqueezeBeforeKeepsEnds(s: string, close: char, ws: iset<char>)
    ensures KeepsEnds(s, SqueezeBefore(s, close, ws), false, ws)
    decreases |s|
  {
    if s != [] {
      var last := s[|s| - 1];
      if s[0] in ws {
        var k := LeadingRun(s, ws);
        var t := s[k..];
        var q := SqueezeBefore(t, close, ws);
        SqueezeBeforeKeepsEnds(t, close, ws);
        if t == [] {
          LeadingRunIsBlank(s, ws);
        } else {
          assert t[|t| - 1] == last;
        }
        if k < |s| && s[k] == close {
          assert SqueezeBefore(s, close, ws) == q;
        } else {
          var p := s[..k];
          assert SqueezeBefore(s, close, ws) == p + q;
          if q != [] {
            AppendKeepsLast(p, q);
          }
        }
      } else {
        var rest := s[1..];
        var q := SqueezeBefore(rest, close, ws);
        assert SqueezeBefore(s, close, ws) == [s[0]] + q;
        SqueezeBeforeKeepsEnds(rest, close, ws);
        if rest != [] {
          assert rest[|rest| - 1] == last;
        }
        if q != [] {
          AppendKeepsLast([s[0]], q);
        }
      }
    }
  }

  lemma {:induction false} CollapseNoLonger(s: string, ws: iset<char>)
    ensures |CollapseBlankLines(s, ws)| <= |s|
    decreases |s|
  {
    if s != [] {
      var rest := s[1..];
      if s[0] == '\n' {
        var u := rest[BlankSpan(rest, ws)..];
        CollapseNoLonger(u, ws);
      } else {
        CollapseNoLonger(rest, ws);
      }
    }
  }

  lemma {:induction false} CollapseKeepsLast(s: string, ws: iset<char>)
    requires '\n' in ws
    requires s != [] && s[|s| - 1] !in ws
    ensures CollapseBlankLines(s, ws) != []
    ensures CollapseBlankLines(s, ws)[|CollapseBlankLines(s, ws)| - 1] == s[|s| - 1]
    decreases |s|
  {
    var rest := s[1..];
    if s[0] == '\n' {
      var k := BlankSpan(rest, ws);
      var u := rest[k..];
      assert |u| > 0 by {
        if k > 0 {
          assert rest[k - 1] in ws;
        }
      }
      assert u[|u| - 1] == s[|s| - 1];
      CollapseKeepsLast(u, ws);
      AppendKeepsLast(['\n'], CollapseBlankLines(u, ws));
    } else if rest != [] {
      assert rest[|rest| - 1] == s[|s| - 1];
      CollapseKeepsLast(rest, ws);
      AppendKeepsLast([s[0]], CollapseBlankLines(rest, ws));
    }
  }

  lemma CollapseKeepsEnds(s: string, ws: iset<char>)
    requires '\n' in ws
    ensures KeepsEnds(s, CollapseBlankLines(s, ws), true, ws)
  {
    CollapseNoLonger(s, ws);
    if s != [] && s[|s| - 1] !in ws {
      CollapseKeepsLast(s, ws);
    }
  }

  lemma KeepsEndsTrimmed(s: string, r: string, first: bool, ws: iset<char>)
    requires KeepsEnds(s, r, first, ws) && Trimmed(s, ws)
    ensures Trimmed(r, ws) && |r| <= |s|
  {
  }

  lemma CleanIsTrimmed(s: string, ws: iset<char>)
    requires '\n' in ws
    ensures |Clean(s, ws)| <= |s| && Trimmed(Clean(s, ws), ws)
  {
    var fenced := RStrip(LStrip(Strip(s, ws), FenceChars), Backticks);
    StripIsTrimmed(s, ws);
    StripIsTrimmed(fenced, ws);
    var u := Strip(fenced, ws);
    var a := SqueezeAfter(u, '[', ws);
    SqueezeAfterKeepsEnds(u, '[', ws);
    KeepsEndsTrimmed(u, a, true, ws);
    var b := SqueezeBefore(a, ']', ws);
    SqueezeBeforeKeepsEnds(a, ']', ws);
    KeepsEndsTrimmed(a, b, false, ws);
    var c := SqueezeAfter(b, '{', ws);
    SqueezeAfterKeepsEnds(b, '{', ws);
    KeepsEndsTrimmed(b, c, true, ws);
    var d := SqueezeBefore(c, '}', ws);
    SqueezeBeforeKeepsEnds(c, '}', ws);
    KeepsEndsTrimmed(c, d, false, ws);
    CollapseKeepsEnds(d, ws);
    KeepsEndsTrimmed(d, CollapseBlankLines(d, ws), true, ws);
  }

  /** The cleaned reply is never longer than the reply and has no leading or
      trailing whitespace. */
  lemma CleanIsTrimmedAndNoLonger(s: string)
    ensures |CleanJsonString(s)| <= |s|
    ensures Trimmed(CleanJsonString(s), Whitespace)
  {
    WhitespaceIsSpaceClass();
    CleanIsTrimmed(s, Whitespace);
  }

  // ---------------------------------------------------------------------
  // Only whitespace disappears

  /** The characters of `s` outside `ws`, in order. */
  function NonSpace(s: string, ws: iset<char>): string
    decreases |s|
  {
    if s == [] then [] else (if s[0] in ws then [] else [s[0]]) + NonSpace(s[1..], ws)
  }

  lemma {:induction false} NonSpaceAppend(a: string, b: string, ws: iset<char>)
    ensures NonSpace(a + b, ws) == NonSpace(a, ws) + NonSpace(b, ws)
    decreases |a|
  {
    if a == [] {
      assert a + b == b;
    } else {
      var head := if a[0] in ws then [] else [a[0]];
      assert (a + b)[0] == a[0];
      assert (a + b)[1..] == a[1..] + b;
      assert NonSpace(a + b, ws) == head + NonSpace(a[1..] + b, ws);
      NonSpaceAppend(a[1..], b, ws);
      assert NonSpace(a, ws) == head + NonSpace(a[1..], ws);
    }
  }

  lemma {:induction false} NonSpaceOfBlank(s: string, ws: iset<char>)
    requires forall i :: 0 <= i < |s| ==> s[i] in ws
    ensures NonSpace(s, ws) == []
    decreases |s|
  {
    if s != [] {
      NonSpaceOfBlank(s[1..], ws);
    }
  }

  /** Dropping a whitespace prefix keeps the text. */
  lemma DropBlankPrefix(s: string, k: nat, ws: iset<char>)
    requires k <= |s|
    requires forall i :: 0 <= i < k ==> s[i] in ws
    ensures NonSpace(s, ws) == NonSpace(s[k..], ws)
  {
    var p := s[..k];
    assert forall i :: 0 <= i < k ==> p[i] == s[i];
    NonSpaceOfBlank(p, ws);
    assert s == p + s[k..];
    NonSpaceAppend(p, s[k..], ws);
  }

  /** Dropping a whitespace suffix keeps the text. */
  lemma DropBlankSuffix(s: string, k: nat, ws: iset<char>)
    requires k <= |s|
    requires forall i :: k <= i < |s| ==> s[i] in ws
    ensures NonSpace(s, ws) == NonSpace(s[..k], ws)
  {
    var q := s[k..];
    assert forall i :: 0 <= i < |q| ==> q[i] == s[k + i];
    NonSpaceOfBlank(q, ws);
    assert s == s[..k] + q;
    NonSpaceAppend(s[..k], q, ws);
  }

  lemma StripKeepsNonSpace(s: string, ws: iset<char>)
    ensures NonSpace(Strip(s, ws), ws) == NonSpace(s, ws)
  {
    LeadingRunIsBlank(s, ws);
    DropBlankPrefix(s, LeadingRun(s, ws), ws);
    var l := LStrip(s, ws);
    TrailingRunIsBlank(l, ws);
    DropBlankSuffix(l, TrailingStart(l, ws), ws);
  }

  lemma {:induction false} SqueezeAfterKeepsNonSpace(s: string, open: char, ws: iset<char>)
    requires open !in ws
    ensures NonSpace(SqueezeAfter(s, open, ws), ws) == NonSpace(s, ws)
    decreases |s|
  {
    if s != [] {
      var rest := s[1..];
      assert s == [s[0]] + rest;
      NonSpaceAppend([s[0]], rest, ws);
      if s[0] == open {
        var t := LStrip(rest, ws);
        var q := SqueezeAfter(t, open, ws);
        assert SqueezeAfter(s, open, ws) == [open] + q;
        SqueezeAfterKeepsNonSpace(t, open, ws);
        LeadingRunIsBlank(rest, ws);
        DropBlankPrefix(rest, LeadingRun(rest, ws), ws);
        NonSpaceAppend([open], q, ws);
      } else {
        var q := SqueezeAfter(rest, open, ws);
        assert SqueezeAfter(s, open, ws) == [s[0]] + q;
        SqueezeAfterKeepsNonSpace(rest, open, ws);
        NonSpaceAppend([s[0]], q, ws);
      }
    }
  }

  lemma {:induction false} SqueezeBeforeKeepsNonSpace(s: string, close: char, ws: iset<char>)
    requires close !in ws
    ensures NonSpace(SqueezeBefore(s, close, ws), ws) == NonSpace(s, ws)
    decreases |s|
  {
    if s != [] {
      if s[0] in ws {
        var k := LeadingRun(s, ws);
        var t := s[k..];
        var q := SqueezeBefore(t, close, ws);
        SqueezeBeforeKeepsNonSpace(t, close, ws);
        LeadingRunIsBlank(s, ws);
        DropBlankPrefix(s, k, ws);
        if k < |s| && s[k] == close {
          assert SqueezeBefore(s, close, ws) == q;
        } else {
          var p := s[..k];
          assert SqueezeBefore(s, close, ws) == p + q;
          assert forall i :: 0 <= i < k ==> p[i] == s[i];
          NonSpaceOfBlank(p, ws);
          NonSpaceAppend(p, q, ws);
        }
      } else {
        var rest := s[1..];
        var q := SqueezeBefore(rest, close, ws);
        assert SqueezeBefore(s, close, ws) == [s[0]] + q;
        assert s == [s[0]] + rest;
        NonSpaceAppend([s[0]], rest, ws);
        SqueezeBeforeKeepsNonSpace(rest, close, ws);
        NonSpaceAppend([s[0]], q, ws);
      }
    }
  }

  lemma {:induction false} CollapseKeepsNonSpace(s: string, ws: iset<char>)
    requires '\n' in ws
    ensures NonSpace(CollapseBlankLines(s, ws), ws) == NonSpace(s, ws)
    decreases |s|
  {
    if s != [] {
      var rest := s[1..];
      assert s == [s[0]] + rest;
      NonSpaceAppend([s[0]], rest, ws);
      if s[0] == '\n' {
        var k := BlankSpan(rest, ws);
        var u := rest[k..];
        var q := CollapseBlankLines(u, ws);
        assert CollapseBlankLines(s, ws) == ['\n'] + q;
        BlankSpanIsGreedy(rest, ws);
        DropBlankPrefix(rest, k, ws);
        CollapseKeepsNonSpace(u, ws);
        NonSpaceAppend(['\n'], q, ws);
      } else {
        var q := CollapseBlankLines(rest, ws);
        assert CollapseBlankLines(s, ws) == [s[0]] + q;
        CollapseKeepsNonSpace(rest, ws);
        NonSpaceAppend([s[0]], q, ws);
      }
    }
  }

  lemma CleanKeepsNonSpace(s: string, ws: iset<char>)
    requires SpaceClass(ws)
    ensures NonSpace(Clean(s, ws), ws) ==
      NonSpace(RStrip(LStrip(Strip(s, ws), FenceChars), Backticks), ws)
  {
    var fenced := RStrip(LStrip(Strip(s, ws), FenceChars), Backticks);
    var u := Strip(fenced, ws);
    StripKeepsNonSpace(fenced, ws);
    var a := SqueezeAfter(u, '[', ws);
    SqueezeAfterKeepsNonSpace(u, '[', ws);
    var b := SqueezeBefore(a, ']', ws);
    SqueezeBeforeKeepsNonSpace(a, ']', ws);
    var c := SqueezeAfter(b, '{', ws);
    SqueezeAfterKeepsNonSpace(b, '{', ws);
    var d := SqueezeBefore(c, '}', ws);
    SqueezeBeforeKeepsNonSpace(c, '}', ws);
    CollapseKeepsNonSpace(d, ws);
  }

  /** Apart from the leading run of fence characters and the trailing run of
      backticks, the cleanup deletes whitespace only: every other character
      of the reply survives, in order. */
  lemma CleanDeletesOnlyWhitespace(s: string)
    ensures NonSpace(CleanJsonString(s), Whitespace) ==
      NonSpace(RStrip(LStrip(Strip(s, Whitespace), FenceChars), Backticks), Whitespace)
  {
    WhitespaceIsSpaceClass();
    CleanKeepsNonSpace(s, Whitespace);
  }

  // ---------------------------------------------------------------------
  // What each rewrite achieves

  /** No `open` in `r` is followed by whitespace. */
  predicate NoSpaceAfter(r: string, open: char, ws: iset<char>) {
    forall i :: 0 <= i < |r| - 1 && r[i] == open ==> r[i + 1] !in ws
  }

  /** No whitespace in `r` is followed by `close`. */
  predicate NoSpaceBefore(r: string, close: char, ws: iset<char>) {
    forall i :: 0 <= i < |r| - 1 && r[i] in ws ==> r[i + 1] != close
  }

  lemma NoSpaceAfterCons(c: char, q: string, open: char, ws: iset<char>)
    requires NoSpaceAfter(q, open, ws)
    requires c == open && q != [] ==> q[0] !in ws
    ensures NoSpaceAfter([c] + q, open, ws)
  {
    var r := [c] + q;
    forall i | 0 <= i < |r| - 1 && r[i] == open ensures r[i + 1] !in ws {
      if i > 0 {
        assert r[i] == q[i - 1] && r[i + 1] == q[i];
      }
    }
  }

  lemma NoSpaceBeforeConcat(p: string, q: string, close: char, ws: iset<char>)
    requires close !in ws
    requires forall i :: 0 <= i < |p| ==> p[i] in ws
    requires NoSpaceBefore(q, close, ws)
    requires q != [] ==> q[0] != close
    ensures NoSpaceBefore(p + q, close, ws)
  {
    var r := p + q;
    forall i | 0 <= i < |r| - 1 && r[i] in ws ensures r[i + 1] != close {
      if i + 1 < |p| {
        assert r[i + 1] == p[i + 1];
      } else if i + 1 == |p| {
        assert r[i + 1] == q[0];
      } else {
        assert r[i] == q[i - |p|] && r[i + 1] == q[i - |p| + 1];
      }
    }
  }

  /** After `\[\s+` -> `[`, no `open` is followed by whitespace. */
  lemma {:induction false} SqueezeAfterLeavesNoGap(s: string, open: char, ws: iset<char>)
    ensures NoSpaceAfter(SqueezeAfter(s, open, ws), open, ws)
    decreases |s|
  {
    if s != [] {
      if s[0] == open {
        var t := LStrip(s[1..], ws);
        var q := SqueezeAfter(t, open, ws);
        assert SqueezeAfter(s, open, ws) == [open] + q;
        SqueezeAfterLeavesNoGap(t, open, ws);
        SqueezeAfterKeepsEnds(t, open, ws);
        NoSpaceAfterCons(open, q, open, ws);
      } else {
        var q := SqueezeAfter(s[1..], open, ws);
        assert SqueezeAfter(s, open, ws) == [s[0]] + q;
        SqueezeAfterLeavesNoGap(s[1..], open, ws);
        NoSpaceAfterCons(s[0], q, open, ws);
      }
    }
  }

  /** After `\s+\]` -> `]`, no whitespace is followed by `close`. */
  lemma {:induction false} SqueezeBeforeLeavesNoGap(s: string, close: char, ws: iset<char>)
    requires close !in ws
    ensures NoSpaceBefore(SqueezeBefore(s, close, ws), close, ws)
    decreases |s|
  {
    if s != [] {
      if s[0] in ws {
        var k := LeadingRun(s, ws);
        var t := s[k..];
        var q := SqueezeBefore(t, close, ws);
        SqueezeBeforeLeavesNoGap(t, close, ws);
        if k < |s| && s[k] == close {
          assert SqueezeBefore(s, close, ws) == q;
        } else {
          var p := s[..k];
          assert SqueezeBefore(s, close, ws) == p + q;
          LeadingRunIsBlank(s, ws);
          assert forall i :: 0 <= i < k ==> p[i] == s[i];
          SqueezeBeforeKeepsEnds(t, close, ws);
          NoSpaceBeforeConcat(p, q, close, ws);
        }
      } else {
        var q := SqueezeBefore(s[1..], close, ws);
        assert SqueezeBefore(s, close, ws) == [s[0]] + q;
        SqueezeBeforeLeavesNoGap(s[1..], close, ws);
        var r := [s[0]] + q;
        forall i | 0 <= i < |r| - 1 && r[i] in ws ensures r[i + 1] != close {
          assert r[i] == q[i - 1] && r[i + 1] == q[i];
        }
      }
    }
  }

  // ---------------------------------------------------------------------
  // Worked replies

  /** Text without whitespace passes every rewrite unchanged. */
  lemma {:induction false} RewritesKeepPlainText(s: string, c: char, ws: iset<char>)
    requires forall i :: 0 <= i < |s| ==> s[i] !in ws
    ensures SqueezeAfter(s, c, ws) == s && SqueezeBefore(s, c, ws) == s
    ensures CollapseBlankLines(s, ws) == s
    decreases |s|
  {
    if s != [] {
      var rest := s[1..];
      assert forall i :: 0 <= i < |rest| ==> rest[i] == s[i + 1];
      RewritesKeepPlainText(rest, c, ws);
      LeadingRunOf(rest, ws, 0);
      assert s == [s[0]] + rest;
    }
  }

  /** After the fence is gone, text without whitespace is the result. */
  lemma CleanOfPlainUnfenced(s: string, u: string, ws: iset<char>)
    requires Unfence(s, ws) == u
    requires forall i :: 0 <= i < |u| ==> u[i] !in ws
    ensures Clean(s, ws) == u
  {
    RewritesKeepPlainText(u, '[', ws);
    RewritesKeepPlainText(u, ']', ws);
    RewritesKeepPlainText(u, '{', ws);
    RewritesKeepPlainText(u, '}', ws);
  }

  /* The worked replies below are given character by character: a string
     literal in a precondition lets the verifier unfold the strip functions
     on it without bound. */

  /** A string that no strip touches at either end. */
  lemma StripOfUnpadded(s: string, cs: iset<char>)
    requires s != [] && s[0] !in cs && s[|s| - 1] !in cs
    ensures RStrip(LStrip(s, cs), cs) == s
  {
    LeadingRunOf(s, cs, 0);
    TrailingStartOf(s, cs, |s|);
  }

  /** The fenced reply "```json\n[1]\n```". */
  predicate IsFencedExample(reply: string) {
    && |reply| == 15
    && reply[0] == '`' && reply[1] == '`' && reply[2] == '`'
    && reply[3] == 'j' && reply[4] == 's' && reply[5] == 'o' && reply[6] == 'n'
    && reply[7] == '\n' && reply[8] == '[' && reply[9] == '1' && reply[10] == ']' && reply[11] == '\n'
    && reply[12] == '`' && reply[13] == '`' && reply[14] == '`'
  }

  lemma FenceOfExample(reply: string)
    requires IsFencedExample(reply)
    ensures RStrip(LStrip(reply, FenceChars), Backticks) == reply[7..12]
  {
    forall i | 0 <= i < 7 ensures reply[i] in FenceChars {
      assert i == 0 || i == 1 || i == 2 || i == 3 || i == 4 || i == 5 || i == 6;
    }
    LeadingRunOf(reply, FenceChars, 7);
    var unfenced := reply[7..];
    forall i | 5 <= i < |unfenced| ensures unfenced[i] in Backticks {
      assert i == 5 || i == 6 || i == 7;
      assert unfenced[i] == reply[i + 7];
    }
    assert unfenced[4] == '\n';
    TrailingStartOf(unfenced, Backticks, 5);
    assert unfenced[..5] == reply[7..12];
  }

  lemma StripOfExample(body: string)
    requires |body| == 5 && body[0] == '\n' && body[1] == '[' && body[2] == '1' && body[3] == ']' && body[4] == '\n'
    ensures Strip(body, Whitespace) == body[1..4]
  {
    assert IsSpace('\n') && !IsSpace('[') && !IsSpace(']');
    LeadingRunOf(body, Whitespace, 1);
    var t := body[1..];
    assert t[3] == '\n' && t[2] == ']';
    TrailingStartOf(t, Whitespace, 3);
    assert t[..3] == body[1..4];
  }

  lemma SliceOfSlice(s: string, a: nat, b: nat, c: nat, d: nat)
    requires a <= b <= |s| && c <= d <= b - a
    ensures s[a..b][c..d] == s[a + c..a + d]
  {
    assert forall i :: 0 <= i < d - c ==> s[a..b][c..d][i] == s[a + c + i];
  }

  lemma UnfenceOfFencedExample(reply: string)
    requires IsFencedExample(reply)
    ensures Unfence(reply, Whitespace) == reply[8..11]
  {
    assert !IsSpace('`');
    StripOfUnpadded(reply, Whitespace);
    FenceOfExample(reply);
    StripOfExample(reply[7..12]);
    SliceOfSlice(reply, 7, 12, 1, 4);
  }

  lemma ThreePlain(t: string)
    requires |t| == 3 && !IsSpace(t[0]) && !IsSpace(t[1]) && !IsSpace(t[2])
    ensures forall i :: 0 <= i < |t| ==> t[i] !in Whitespace
  {
    forall i | 0 <= i < |t| ensures t[i] !in Whitespace {
      assert i == 0 || i == 1 || i == 2;
    }
  }

  /** A fenced reply loses its fence and the line breaks around it. */
  lemma FencedReplyIsUnwrapped(reply: string)
    requires IsFencedExample(reply)
    ensures CleanJsonString(reply) == reply[8..11]
  {
    UnfenceOfFencedExample(reply);
    var json := reply[8..11];
    assert json[0] == '[' && json[1] == '1' && json[2] == ']';
    ThreePlain(json);
    CleanOfPlainUnfenced(reply, json, Whitespace);
  }

  /** The unfenced reply "null". */
  predicate IsNullExample(reply: string) {
    |reply| == 4 && reply[0] == 'n' && reply[1] == 'u' && reply[2] == 'l' && reply[3] == 'l'
  }

  lemma UnfenceOfNullExample(reply: string)
    requires IsNullExample(reply)
    ensures Unfence(reply, Whitespace) == reply[1..]
  {
    var rest := reply[1..];
    assert !IsSpace('n') && !IsSpace('u') && !IsSpace('l');
    StripOfUnpadded(reply, Whitespace);
    LeadingRunOf(reply, FenceChars, 1);
    TrailingStartOf(rest, Backticks, |rest|);
    StripOfUnpadded(rest, Whitespace);
  }

  /** `lstrip` takes a character set: an unfenced `null` loses its `n`. */
  lemma LStripTakesCharacters(reply: string)
    requires IsNullExample(reply)
    ensures CleanJsonString(reply) == reply[1..]
  {
    UnfenceOfNullExample(reply);
    var rest := reply[1..];
    assert rest[0] == 'u' && rest[1] == 'l' && rest[2] == 'l';
    ThreePlain(rest);
    CleanOfPlainUnfenced(reply, rest, Whitespace);
  }
}
