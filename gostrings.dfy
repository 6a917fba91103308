/**
 * The few functions of Go's `strings` package the core relies on.
 * A Go string is a sequence of bytes; here each `char` stands for one byte,
 * so `|s|` is Go's `len(s)`.
 */
module GoStrings {

  /** Number of occurrences of `c` in `s` (`strings.Count` with a one-byte separator). */
  function Count(s: string, c: char): (n: nat)
    ensures n <= |s|
    ensures n == 0 <==> c !in s
  {
    if s == [] then 0 else (if s[0] == c then 1 else 0) + Count(s[1..], c)
  }

  lemma {:induction false} CountAppend(a: string, b: string, c: char)
    ensures Count(a + b, c) == Count(a, c) + Count(b, c)
  {
    if a == [] {
      assert a + b == b;
    } else {
      assert (a + b)[1..] == a[1..] + b;
      CountAppend(a[1..], b, c);
    }
  }

  /** Index of the first `c` in `s`, or -1 (`strings.Index` with a one-byte needle). */
  function IndexOf(s: string, c: char): (i: int)
    ensures -1 <= i < |s|
    ensures i == -1 <==> c !in s
    ensures 0 <= i ==> s[i] == c && c !in s[..i]
  {
    if s == [] then -1
    else if s[0] == c then 0
    else
      var j := IndexOf(s[1..], c);
      assert j >= 0 ==> s[1..][..j] == s[1..j + 1];
      if j < 0 then -1 else j + 1
  }

  /** `strings.Split(s, sep)` for a one-byte separator: k separators give k + 1 fields. */
  function Split(s: string, sep: char): (fields: seq<string>)
    ensures |fields| == Count(s, sep) + 1
    ensures forall i | 0 <= i < |fields| :: sep !in fields[i]
  {
    if s == [] then [""]
    else
      var rest := Split(s[1..], sep);
      if s[0] == sep then [""] + rest
      else [[s[0]] + rest[0]] + rest[1..]
  }

  /** A field that holds no separator is split off intact, whatever follows it. */
  lemma {:induction false} SplitAfterField(a: string, sep: char, b: string)
    requires sep !in a
    ensures Split(a + [sep] + b, sep) == [a] + Split(b, sep)
  {
    if a == [] {
      assert a + [sep] + b == [sep] + b;
      assert ([sep] + b)[1..] == b;
    } else {
      assert (a + [sep] + b)[1..] == a[1..] + [sep] + b;
      SplitAfterField(a[1..], sep, b);
      assert [a[0]] + a[1..] == a;
    }
  }

  lemma {:induction false} SplitNoSeparator(a: string, sep: char)
    requires sep !in a
    ensures Split(a, sep) == [a]
  {
    if a != [] {
      SplitNoSeparator(a[1..], sep);
      assert [a[0]] + a[1..] == a;
    }
  }

  /** Three separator-free fields joined by `sep` split back into exactly those fields. */
  lemma SplitThree(a: string, b: string, c: string, sep: char)
    requires sep !in a && sep !in b && sep !in c
    ensures Split(a + [sep] + b + [sep] + c, sep) == [a, b, c]
  {
    var tail := b + [sep] + c;
    SplitNoSeparator(c, sep);
    SplitAfterField(b, sep, c);
    assert Split(tail, sep) == [b, c];
    assert a + [sep] + b + [sep] + c == a + [sep] + tail;
    SplitAfterField(a, sep, tail);
  }

  /** The six ASCII bytes `unicode.IsSpace` accepts: tab, line feed, vertical tab, form feed, carriage return, space. */
  predicate IsAsciiSpace(c: char) {
    c == ' ' || c == '\t' || c == '\n' || c == '\r' || c == '\U{000B}' || c == '\U{000C}'
  }

  /**
   * The three-byte UTF-8 forms of the other white space of `unicode.IsSpace`:
   * U+1680, U+2000 to U+200A, U+2028, U+2029, U+202F, U+205F and U+3000.
   */
  predicate IsSpace3(a: char, b: char, c: char) {
    || (a == '\U{00E1}' && b == '\U{009A}' && c == '\U{0080}')
    || (a == '\U{00E2}' && b == '\U{0080}'
        && (('\U{0080}' <= c <= '\U{008A}') || c == '\U{00A8}' || c == '\U{00A9}' || c == '\U{00AF}'))
    || (a == '\U{00E2}' && b == '\U{0081}' && c == '\U{009F}')
    || (a == '\U{00E3}' && b == '\U{0080}' && c == '\U{0080}')
  }

  /** The two-byte UTF-8 forms of U+0085 and U+00A0. */
  predicate IsSpace2(a: char, b: char) {
    a == '\U{00C2}' && (b == '\U{0085}' || b == '\U{00A0}')
  }

  /**
   * Width in bytes of the white-space character UTF-8 encoded at the start of `s`,
   * or 0 when `s` does not start with one. A byte that does not begin a valid
   * encoding decodes to `utf8.RuneError`, which is not white space.
   */
  function LeadingSpace(s: string): (n: nat)
    ensures n <= 3 && n <= |s|
  {
    if |s| >= 1 && IsAsciiSpace(s[0]) then 1
    else if |s| >= 2 && IsSpace2(s[0], s[1]) then 2
    else if |s| >= 3 && IsSpace3(s[0], s[1], s[2]) then 3
    else 0
  }

  /**
   * Width in bytes of the white-space character UTF-8 encoded at the end of `s`,
   * or 0, as `utf8.DecodeLastRuneInString` reads it.
   */
  function TrailingSpace(s: string): (n: nat)
    ensures n <= 3 && n <= |s|
  {
    var k := |s|;
    if k >= 1 && IsAsciiSpace(s[k - 1]) then 1
    else if k >= 2 && IsSpace2(s[k - 2], s[k - 1]) then 2
    else if k >= 3 && IsSpace3(s[k - 3], s[k - 2], s[k - 1]) then 3
    else 0
  }

  /** `strings.TrimLeftFunc(s, unicode.IsSpace)`: drop white-space characters from the front. */
  function TrimLeft(s: string): (r: string)
    ensures |r| <= |s| && r == s[|s| - |r|..]
    ensures LeadingSpace(r) == 0
  {
    var n := LeadingSpace(s);
    if n > 0 then TrimLeft(s[n..]) else s
  }

  /** `strings.TrimRightFunc(s, unicode.IsSpace)`: drop white-space characters from the back. */
  function TrimRight(s: string): (r: string)
    ensures |r| <= |s| && r == s[..|r|]
    ensures TrailingSpace(r) == 0
  {
    var n := TrailingSpace(s);
    if n > 0 then TrimRight(s[..|s| - n]) else s
  }

  /**
   * `strings.TrimSpace`: drop leading and trailing white space. Its ASCII fast
   * path and its decoding path agree on every input, so one definition serves.
   */
  function TrimSpace(s: string): string {
    TrimRight(TrimLeft(s))
  }

  /** A string is its own trimmed form exactly when it neither starts nor ends with white space. */
  lemma TrimSpaceFixpoint(s: string)
    ensures TrimSpace(s) == s <==> LeadingSpace(s) == 0 && TrailingSpace(s) == 0
  {
    if LeadingSpace(s) > 0 {
      assert |TrimSpace(s)| <= |TrimLeft(s)| < |s|;
    } else if TrailingSpace(s) > 0 {
      assert TrimLeft(s) == s;
      assert |TrimSpace(s)| < |s|;
    }
  }

  /** Text that starts and ends with an ASCII byte other than white space is left alone by trimming. */
  lemma AsciiEndsTrimmed(s: string)
    requires s != []
    requires s[0] < '\U{0080}' && !IsAsciiSpace(s[0])
    requires s[|s| - 1] < '\U{0080}' && !IsAsciiSpace(s[|s| - 1])
    ensures TrimSpace(s) == s
  {
    assert LeadingSpace(s) == 0;
    assert TrailingSpace(s) == 0;
    TrimSpaceFixpoint(s);
  }

  /**
   * A lone byte 0xA0 is not white space, since it is no valid UTF-8, while the
   * two-byte encoding of U+00A0 is.
   */
  lemma NoBreakSpaceBytes()
    ensures TrimSpace("abc\U{00A0}") == "abc\U{00A0}"
    ensures TrimSpace("\U{00C2}\U{00A0}abc") == "abc"
  {
    var lone := "abc\U{00A0}";
    assert LeadingSpace(lone) == 0 && TrailingSpace(lone) == 0;
    TrimSpaceFixpoint(lone);
    var padded := "\U{00C2}\U{00A0}abc";
    assert LeadingSpace(padded) == 2;
    assert padded[2..] == "abc";
    assert LeadingSpace("abc") == 0 && TrailingSpace("abc") == 0;
  }

  /** `strings.SplitN(s, " ", 2)`: the text before the first space and the rest, or `[s]`. */
  function SplitAtFirstSpace(s: string): (parts: seq<string>)
    ensures ' ' !in s ==> parts == [s]
    ensures ' ' in s ==> |parts| == 2 && ' ' !in parts[0] && s == parts[0] + " " + parts[1]
  {
    var i := IndexOf(s, ' ');
    if i < 0 then [s] else [s[..i], s[i + 1..]]
  }

  /** Joins `parts` with `sep` between neighbours (the `+=` loops of the source build this). */
  function Join(parts: seq<string>, sep: string): string {
    if parts == [] then ""
    else if |parts| == 1 then parts[0]
    else Join(parts[..|parts| - 1], sep) + sep + parts[|parts| - 1]
  }

  /** Adding a part at the end adds the separator and that part, unless it is the only part. */
  lemma JoinExtend(parts: seq<string>, p: string, sep: string)
    ensures Join(parts + [p], sep) == if parts == [] then p else Join(parts, sep) + sep + p
  {
    assert (parts + [p])[..|parts|] == parts;
  }

  lemma {:induction false} JoinCons(a: string, rest: seq<string>, sep: string)
    ensures Join([a] + rest, sep) == if rest == [] then a else a + sep + Join(rest, sep)
    decreases |rest|
  {
    var all := [a] + rest;
    if |rest| > 1 {
      var init, last := rest[..|rest| - 1], rest[|rest| - 1];
      assert all[..|all| - 1] == [a] + init;
      assert all[|all| - 1] == last;
      JoinCons(a, init, sep);
      assert Join(all, sep) == Join([a] + init, sep) + sep + last;
      assert Join(rest, sep) == Join(init, sep) + sep + last;
      assert (a + sep + Join(init, sep)) + sep + last == a + sep + (Join(init, sep) + sep + last);
    } else if |rest| == 1 {
      assert all == [a, rest[0]];
      assert all[..1] == [a];
    }
  }

  /** A character put in front of the first part ends up in front of the join. */
  lemma JoinPrependChar(c: char, parts: seq<string>, sep: string)
    requires parts != []
    ensures Join([[c] + parts[0]] + parts[1..], sep) == [c] + Join(parts, sep)
  {
    var head, tail := parts[0], parts[1..];
    var head' := [c] + head;
    if tail == [] {
      assert [head'] + tail == [head'];
    } else {
      var j := Join(tail, sep);
      assert Join(parts, sep) == head + sep + j by {
        assert [head] + tail == parts;
        JoinCons(head, tail, sep);
      }
      assert Join([head'] + tail, sep) == head' + sep + j by {
        JoinCons(head', tail, sep);
      }
      assert head' + sep + j == [c] + (head + sep + j);
    }
  }

  /** Joining the fields of `strings.Split` with the separator gives back the text. */
  lemma {:induction false} SplitJoin(s: string, sep: char)
    ensures Join(Split(s, sep), [sep]) == s
  {
    if s != [] {
      var rest := Split(s[1..], sep);
      SplitJoin(s[1..], sep);
      if s[0] == sep {
        JoinCons("", rest, [sep]);
      } else {
        JoinPrependChar(s[0], rest, [sep]);
      }
      assert [s[0]] + s[1..] == s;
    }
  }

  /** Splitting a join of separator-free parts gives the parts back. */
  lemma {:induction false} JoinSplit(parts: seq<string>, sep: char)
    requires parts != []
    requires forall i | 0 <= i < |parts| :: sep !in parts[i]
    ensures Split(Join(parts, [sep]), sep) == parts
    decreases |parts|
  {
    var rest := parts[1..];
    JoinCons(parts[0], rest, [sep]);
    assert [parts[0]] + rest == parts;
    if rest == [] {
      SplitNoSeparator(parts[0], sep);
    } else {
      JoinSplit(rest, sep);
      SplitAfterField(parts[0], sep, Join(rest, [sep]));
    }
  }

  /** A text that splits into three fields is those fields joined by the separator. */
  lemma SplitThreeFields(s: string, sep: char)
    requires |Split(s, sep)| == 3
    ensures var f := Split(s, sep); s == f[0] + [sep] + f[1] + [sep] + f[2]
  {
    var f := Split(s, sep);
    SplitJoin(s, sep);
    assert f[..2] == [f[0], f[1]] && f[..2][..1] == [f[0]];
    assert Join(f[..2], [sep]) == f[0] + [sep] + f[1];
  }

  /** Byte-wise lexicographic order, the order of Go's `<` on strings and `sort.Strings`. */
  predicate Less(a: string, b: string) {
    if a == [] then b != []
    else if b == [] then false
    else if a[0] != b[0] then a[0] < b[0]
    else Less(a[1..], b[1..])
  }

  lemma {:induction false} LessIrreflexive(a: string)
    ensures !Less(a, a)
  {
    if a != [] { LessIrreflexive(a[1..]); }
  }

  lemma {:induction false} LessTransitive(a: string, b: string, c: string)
    requires Less(a, b) && Less(b, c)
    ensures Less(a, c)
  {
    if a != [] && b != [] && c != [] && a[0] == b[0] && b[0] == c[0] {
      LessTransitive(a[1..], b[1..], c[1..]);
    }
  }

  lemma {:induction false} LessTotal(a: string, b: string)
    requires a != b
    ensures Less(a, b) || Less(b, a)
  {
    if a != [] && b != [] && a[0] == b[0] {
      assert a == [a[0]] + a[1..] && b == [b[0]] + b[1..];
      LessTotal(a[1..], b[1..]);
    }
  }

  lemma LessAsymmetric(a: string, b: string)
    requires Less(a, b)
    ensures !Less(b, a)
  {
    if Less(b, a) {
      LessTransitive(a, b, a);
      LessIrreflexive(a);
    }
  }
}
