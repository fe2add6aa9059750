/** The terminal colouring helpers: `stylize_gradient`, `color_prefix` and
    the choice of the tag printed before a reply. */
module Terminal {

  const Esc: char := '\U{1B}'
  const LightBlack: string := "\U{1B}[90m"
  const Red: string := "\U{1B}[31m"
  const LightRed: string := "\U{1B}[91m"
  const Reset: string := "\U{1B}[0m"

  const WebTag: string := "[Web]"
  const OfflineTag: string := "[Offline]"

  /** `palette[i % len(palette)]` for the grey, red, light-red palette. */
  function PaletteAt(i: nat): (code: string)
    ensures code == LightBlack || code == Red || code == LightRed
    ensures |code| == 5 && code[0] == Esc
  {
    [LightBlack, Red, LightRed][i % 3]
  }

  /** The joined list of colour-and-character pairs for `t`, whose first
      character has index `i` in the enumeration. */
  function Colored(t: string, i: nat): (r: string)
    ensures |r| == 6 * |t|
  {
    if t == [] then [] else PaletteAt(i) + [t[0]] + Colored(t[1..], i + 1)
  }

  /** The `k`-th block of six characters is the colour of index `i + k`
      followed by the `k`-th character, whatever follows the blocks. */
  lemma {:induction false} ColoredAt(t: string, i: nat, k: nat, tail: string, j: nat)
    requires k < |t| && j == i + k
    ensures (Colored(t, i) + tail)[6 * k..6 * k + 6] == PaletteAt(j) + [t[k]]
  {
    var head, rest := PaletteAt(i) + [t[0]], Colored(t[1..], i + 1) + tail;
    assert Colored(t, i) + tail == head + rest;
    if k > 0 {
      ColoredAt(t[1..], i + 1, k - 1, tail, j);
      var a := 6 * (k - 1);
      assert 6 * k == a + 6;
      assert (head + rest)[a + 6..a + 12] == rest[a..a + 6];
    }
  }

  /** `stylize_gradient(t)`: every character preceded by the palette colour of
      its index, cycling grey, red, light red, then one reset. */
  function StylizeGradient(t: string): (r: string)
    ensures |r| == 6 * |t| + 4
    ensures forall k :: 0 <= k < |t| ==> r[6 * k..6 * k + 6] == PaletteAt(k) + [t[k]]
    ensures r[6 * |t|..] == Reset
  {
    var body := Colored(t, 0);
    GradientBlocks(t);
    body + Reset
  }

  /** Every block of the gradient, before the reset, holds the colour of its
      index and its character. */
  lemma GradientBlocks(t: string)
    ensures forall k :: 0 <= k < |t| ==> (Colored(t, 0) + Reset)[6 * k..6 * k + 6] == PaletteAt(k) + [t[k]]
  {
    forall k | 0 <= k < |t| ensures (Colored(t, 0) + Reset)[6 * k..6 * k + 6] == PaletteAt(k) + [t[k]] {
      BlockInside(k, |t|);
      ColoredAt(t, 0, k, Reset, k);
    }
  }

  /** Block `k` of `n` blocks of six ends within them. */
  lemma BlockInside(k: nat, n: nat)
    requires k < n
    ensures 6 * k + 6 <= 6 * n
  {
  }

  /** `color_prefix(caption, enabled, web)`. */
  function ColorPrefix(caption: string, enabled: bool, web: bool): (r: string)
    ensures !enabled ==> r == caption
    ensures enabled ==> |r| == |caption| + 9
    ensures enabled ==> r[..5] == (if web then Red else LightBlack) && r[5..|r| - 4] == caption && r[|r| - 4..] == Reset
  {
    if !enabled then caption else (if web then Red else LightBlack) + caption + Reset
  }

  /** The tag printed before a reply: the `[Web]` prefix when the reply used
      web data, the grey `[Offline]` prefix otherwise. */
  function Tag(fromWeb: bool, useColor: bool): (r: string)
    ensures Visible(r) == (if fromWeb then WebTag else OfflineTag)
    ensures !useColor ==> r == (if fromWeb then WebTag else OfflineTag)
    ensures useColor ==> |r| > 9 && r[..5] == (if fromWeb then Red else LightBlack) && r[|r| - 4..] == Reset
    ensures r == ColorPrefix(if fromWeb then WebTag else OfflineTag, useColor, fromWeb)
  {
    VisibleColorPrefix(WebTag, useColor, fromWeb);
    VisibleColorPrefix(OfflineTag, useColor, false);
    var prefix := ColorPrefix(WebTag, useColor, fromWeb);
    var offlinePrefix := ColorPrefix(OfflineTag, useColor, false);
    if fromWeb then prefix else offlinePrefix
  }

  /** Drops the rest of an escape sequence, up to and including its final
      `m`. */
  function SkipSgr(s: string): (r: string)
    ensures |r| <= |s|
  {
    if s == [] then []
    else if s[0] == 'm' then s[1..]
    else SkipSgr(s[1..])
  }

  /** What a terminal shows of `s`: its characters with every
      `ESC ... m` colour sequence removed. */
  function Visible(s: string): string
    decreases |s|
  {
    if s == [] then []
    else if s[0] == Esc then Visible(SkipSgr(s[1..]))
    else [s[0]] + Visible(s[1..])
  }

  /** Skipping an escape sequence stops right after its first `m`. */
  lemma {:induction false} SkipSgrThrough(p: string, rest: string)
    requires 'm' !in p
    ensures SkipSgr(p + "m" + rest) == rest
  {
    if p != [] {
      assert (p + "m" + rest)[1..] == p[1..] + "m" + rest;
      SkipSgrThrough(p[1..], rest);
    } else {
      assert p + "m" + rest == "m" + rest;
    }
  }

  /** An escape sequence ending in its first `m` shows nothing. */
  lemma VisibleSgr(p: string, rest: string)
    requires 'm' !in p
    ensures Visible([Esc] + p + "m" + rest) == Visible(rest)
  {
    assert ([Esc] + p + "m" + rest)[1..] == p + "m" + rest;
    SkipSgrThrough(p, rest);
  }

  /** A colour code shows nothing. */
  lemma VisibleAfterCode(code: string, rest: string)
    requires code == LightBlack || code == Red || code == LightRed || code == Reset
    ensures Visible(code + rest) == Visible(rest)
  {
    var p := if code == LightBlack then "[90" else if code == Red then "[31" else if code == LightRed then "[91" else "[0";
    assert code == [Esc] + p + "m";
    VisibleSgr(p, rest);
  }

  /** A character other than the escape character shows as itself. */
  lemma VisiblePlain(c: char, rest: string)
    requires c != Esc
    ensures Visible([c] + rest) == [c] + Visible(rest)
  {
    assert ([c] + rest)[1..] == rest;
  }

  /** One block of the gradient shows its character only. */
  lemma VisibleBlock(code: string, c: char, rest: string)
    requires code == LightBlack || code == Red || code == LightRed
    requires c != Esc
    ensures Visible(code + [c] + rest) == [c] + Visible(rest)
  {
    assert code + [c] + rest == code + ([c] + rest);
    VisibleAfterCode(code, [c] + rest);
    VisiblePlain(c, rest);
  }

  lemma {:induction false} VisibleColored(t: string, i: nat)
    requires Esc !in t
    ensures Visible(Colored(t, i) + Reset) == t
    decreases |t|
  {
    if t == [] {
      VisibleAfterCode(Reset, []);
      assert Colored(t, i) + Reset == Reset + [];
    } else {
      var rest := Colored(t[1..], i + 1) + Reset;
      assert Colored(t, i) + Reset == PaletteAt(i) + [t[0]] + rest;
      VisibleBlock(PaletteAt(i), t[0], rest);
      VisibleColored(t[1..], i + 1);
      assert [t[0]] + t[1..] == t;
    }
  }

  /** On screen, the gradient shows exactly the text it colours. */
  lemma VisibleGradient(t: string)
    requires Esc !in t
    ensures Visible(StylizeGradient(t)) == t
  {
    VisibleColored(t, 0);
  }

  /** On screen, a coloured or plain prefix shows exactly its caption. */
  lemma {:induction false} VisibleColorPrefix(caption: string, enabled: bool, web: bool)
    requires Esc !in caption
    ensures Visible(ColorPrefix(caption, enabled, web)) == Visible(caption) == caption
  {
    VisibleLabel(caption);
    if enabled {
      var code := if web then Red else LightBlack;
      assert ColorPrefix(caption, enabled, web) == code + (caption + Reset);
      VisibleAfterCode(code, caption + Reset);
      VisibleAppendCode(caption, Reset);
    }
  }

  /** A text without escape characters shows as itself. */
  lemma {:induction false} VisibleLabel(s: string)
    requires Esc !in s
    ensures Visible(s) == s
    decreases |s|
  {
    if s != [] {
      VisiblePlain(s[0], s[1..]);
      assert [s[0]] + s[1..] == s;
      VisibleLabel(s[1..]);
    }
  }

  /** Appending a colour code to a text without escapes shows nothing more. */
  lemma {:induction false} VisibleAppendCode(s: string, code: string)
    requires Esc !in s
    requires code == LightBlack || code == Red || code == LightRed || code == Reset
    ensures Visible(s + code) == s
    decreases |s|
  {
    if s == [] {
      VisibleAfterCode(code, []);
      assert [] + code == code + [];
    } else {
      assert s + code == [s[0]] + (s[1..] + code);
      VisiblePlain(s[0], s[1..] + code);
      VisibleAppendCode(s[1..], code);
      assert [s[0]] + s[1..] == s;
    }
  }
}
