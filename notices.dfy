/**
 * The notice banner of a page: the notices joined by line breaks, wrapped in a
 * heading whose look depends on the style.
 */
module Notices {
  import opened GoStrings

  const LineBreak := "<br />"

  /** What the banner starts with: a warning heading for style 2, a plain heading for style 1, else nothing. */
  function Opening(style: int): string {
    if style == 2 then "<h4 class=\"cwarn\">" else if style == 1 then "<h4>" else ""
  }

  /** What the banner ends with: the heading's end tag for styles 1 and 2, else a rule. */
  function Closing(style: int): string {
    if style == 1 || style == 2 then "</h4>" else "<hr />"
  }

  /** The banner: the notices in order, separated (not terminated) by line breaks, inside the style's wrapper. */
  function Banner(style: int, notices: seq<string>): string {
    Opening(style) + Join(notices, LineBreak) + Closing(style)
  }

  /** `notices`: builds the banner piece by piece. */
  method Render(style: int, notices: seq<string>) returns (result: string)
    ensures result == Banner(style, notices)
  {
    result := Opening(style);
    for n := 0 to |notices|
      invariant result == Opening(style) + Join(notices[..n], LineBreak)
    {
      assert notices[..n + 1][..n] == notices[..n];
      if n > 0 {
        result := result + LineBreak;
      }
      result := result + notices[n];
    }
    assert notices[..|notices|] == notices;
    result := result + Closing(style);
  }

  /** The three wrappers, and an empty list still gets one. */
  lemma BannerStyles(style: int, notices: seq<string>)
    ensures style == 1 ==> Banner(style, notices) == "<h4>" + Join(notices, LineBreak) + "</h4>"
    ensures style == 2 ==> Banner(style, notices) == "<h4 class=\"cwarn\">" + Join(notices, LineBreak) + "</h4>"
    ensures style != 1 && style != 2 ==> Banner(style, notices) == Join(notices, LineBreak) + "<hr />"
    ensures notices == [] ==> Banner(style, notices) == Opening(style) + Closing(style)
  {
  }

  /** The total length of a list of strings. */
  function TotalLength(parts: seq<string>): nat {
    if parts == [] then 0 else TotalLength(parts[..|parts| - 1]) + |parts[|parts| - 1]|
  }

  lemma MulStep(k: nat, n: nat)
    ensures (k + 1) * n == k * n + n
  {
  }

  /** Joining adds exactly one separator between neighbours and nothing else. */
  lemma {:induction false} JoinLength(parts: seq<string>, sep: string)
    requires parts != []
    ensures |Join(parts, sep)| == TotalLength(parts) + (|parts| - 1) * |sep|
    decreases |parts|
  {
    if |parts| > 1 {
      var init, last := parts[..|parts| - 1], parts[|parts| - 1];
      JoinLength(init, sep);
      assert |Join(parts, sep)| == |Join(init, sep)| + |sep| + |last|;
      assert TotalLength(parts) == TotalLength(init) + |last|;
      MulStep(|init| - 1, |sep|);
    }
  }

  /** A slice of the left operand survives appending. */
  lemma SliceOfAppend(a: string, b: string, c: string, lo: nat, hi: nat)
    requires lo <= hi <= |a|
    ensures (a + b + c)[lo..hi] == a[lo..hi]
  {
    assert a + b + c == a + (b + c);
  }

  /** Each part sits in the join right after the parts before it and their separators. */
  lemma {:induction false} JoinSlice(parts: seq<string>, sep: string, i: nat)
    requires i < |parts|
    ensures var start := TotalLength(parts[..i]) + i * |sep|;
      && start + |parts[i]| <= |Join(parts, sep)|
      && Join(parts, sep)[start..start + |parts[i]|] == parts[i]
    decreases |parts|
  {
    var init, last := parts[..|parts| - 1], parts[|parts| - 1];
    if i == 0 && |parts| == 1 {
    } else if i == |parts| - 1 {
      assert init == parts[..i];
      JoinLength(init, sep);
      MulStep(i - 1, |sep|);
    } else {
      assert init[..i] == parts[..i];
      assert init[i] == parts[i];
      JoinSlice(init, sep, i);
      var start := TotalLength(parts[..i]) + i * |sep|;
      assert start == TotalLength(init[..i]) + i * |sep|;
      var a := Join(init, sep);
      assert Join(parts, sep) == a + sep + last;
      SliceOfAppend(a, sep, last, start, start + |parts[i]|);
    }
  }

  /** Each notice sits in the banner right after the wrapper, the notices before it and their line breaks. */
  lemma NoticeInBanner(style: int, notices: seq<string>, i: nat)
    requires i < |notices|
    ensures var start := |Opening(style)| + TotalLength(notices[..i]) + i * |LineBreak|;
      && start + |notices[i]| <= |Banner(style, notices)|
      && Banner(style, notices)[start..start + |notices[i]|] == notices[i]
  {
    JoinSlice(notices, LineBreak, i);
    var o, j := Opening(style), Join(notices, LineBreak);
    var s := TotalLength(notices[..i]) + i * |LineBreak|;
    SliceInMiddle(o, j, Closing(style), s, s + |notices[i]|);
  }

  lemma SliceInMiddle(a: string, b: string, c: string, lo: nat, hi: nat)
    requires lo <= hi <= |b|
    ensures (a + b + c)[|a| + lo..|a| + hi] == b[lo..hi]
  {
    var t := a + b + c;
    forall m | |a| + lo <= m < |a| + hi ensures t[m] == b[m - |a|] {
      assert t[m] == (a + b)[m];
    }
  }
}
