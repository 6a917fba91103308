/**
 * The pieces of the request router the model covers: notices carried across a
 * redirect in the query string, the phase of the round a request falls in, and
 * the cap on the length of the requested action.
 *
 * Notices are byte strings; `Text` turns bytes back into a string (one `char`
 * per byte, as everywhere in the model).
 */
module Routes {
  import opened Wrappers
  import opened GoStrings
  import opened Base64
  import opened Notices

  // ---------------------------------------------------------------- notices to a query string

  /** The name of the query parameter that carries notices. */
  const NoticeKey := "notice"

  /** The query parameter that carries one notice. */
  function NoticeParameter(notice: seq<byte>): string {
    NoticeKey + "=" + EncodePadded(notice)
  }

  function NoticeParameters(notices: seq<seq<byte>>): (ps: seq<string>)
    ensures |ps| == |notices|
  {
    seq(|notices|, i requires 0 <= i < |notices| => NoticeParameter(notices[i]))
  }

  /**
   * `noticesToQueryParameters`: nothing (and `false`) for no notices; otherwise
   * one `notice=` parameter per notice, in order, joined by `&`.
   */
  method NoticesToQueryParameters(notices: seq<seq<byte>>) returns (parms: string, ok: bool)
    ensures ok <==> notices != []
    ensures !ok ==> parms == ""
    ensures ok ==> parms == Join(NoticeParameters(notices), "&")
  {
    parms := "";
    for n := 0 to |notices|
      invariant parms == Join(NoticeParameters(notices[..n]), "&")
      invariant parms == "" <==> n == 0
    {
      NoticeParametersExtend(notices, n);
      JoinExtend(NoticeParameters(notices[..n]), NoticeParameter(notices[n]), "&");
      if parms != "" {
        parms := parms + "&";
      }
      parms := parms + NoticeParameter(notices[n]);
    }
    assert notices[..|notices|] == notices;
    if |parms| == 0 {
      return "", false;
    }
    ok := true;
  }

  lemma NoticeParametersExtend(notices: seq<seq<byte>>, n: nat)
    requires n < |notices|
    ensures NoticeParameters(notices[..n + 1]) == NoticeParameters(notices[..n]) + [NoticeParameter(notices[n])]
  {
    var front := notices[..n + 1];
    var a, init := NoticeParameters(front), NoticeParameters(notices[..n]);
    forall i | 0 <= i < n ensures a[i] == init[i] {
      assert front[i] == notices[..n][i];
    }
    assert a[..n] == init;
    assert a[n] == NoticeParameter(notices[n]);
    assert a == a[..n] + [a[n]];
  }

  // ---------------------------------------------------------------- query strings

  predicate IsHex(c: char) {
    ('0' <= c <= '9') || ('a' <= c <= 'f') || ('A' <= c <= 'F')
  }

  function HexValue(c: char): (v: nat)
    requires IsHex(c)
    ensures v < 16
  {
    if '0' <= c <= '9' then (c - '0') as nat
    else if 'a' <= c <= 'f' then (c - 'a') as nat + 10
    else (c - 'A') as nat + 10
  }

  /**
   * `url.QueryUnescape`: `+` stands for a space and `%` followed by two hex
   * digits for the byte they spell; a `%` without two hex digits is an error.
   */
  function Unescape(s: string): (r: Option<string>)
    ensures r.Some? ==> |r.value| <= |s|
  {
    if s == [] then Some("")
    else if s[0] == '%' then
      if |s| >= 3 && IsHex(s[1]) && IsHex(s[2]) then
        match Unescape(s[3..])
        case Some(t) => Some([(HexValue(s[1]) * 16 + HexValue(s[2])) as char] + t)
        case None => None
      else None
    else
      match Unescape(s[1..])
      case Some(t) => Some([if s[0] == '+' then ' ' else s[0]] + t)
      case None => None
  }

  /** Text without `%` or `+` unescapes to itself. */
  lemma {:induction false} UnescapePlain(s: string)
    requires '%' !in s && '+' !in s
    ensures Unescape(s) == Some(s)
  {
    if s != [] {
      UnescapePlain(s[1..]);
      assert [s[0]] + s[1..] == s;
    }
  }

  /**
   * One `&`-separated field of a query as `url.ParseQuery` reads it: empty
   * fields and fields holding `;` are skipped; the key ends at the first `=`
   * (no `=` means an empty value); key and value are unescaped, and a field
   * either fails to unescape is skipped.
   */
  function Pair(field: string): Option<(string, string)> {
    if field == "" || ';' in field then None
    else
      var i := IndexOf(field, '=');
      var (k, v) := if i < 0 then (field, "") else (field[..i], field[i + 1..]);
      match (Unescape(k), Unescape(v))
      case (Some(key), Some(value)) => Some((key, value))
      case _ => None
  }

  /** The values given for `key` by the fields, in order. */
  function FieldValues(fields: seq<string>, key: string): (vs: seq<string>)
    ensures |vs| <= |fields|
  {
    if fields == [] then []
    else
      (match Pair(fields[0])
       case Some((k, v)) => if k == key then [v] else []
       case None => [])
      + FieldValues(fields[1..], key)
  }

  lemma FieldValuesCons(fields: seq<string>, key: string, v: string)
    requires fields != [] && Pair(fields[0]) == Some((key, v))
    ensures FieldValues(fields, key) == [v] + FieldValues(fields[1..], key)
  {
  }

  /** `r.URL.Query()[key]`: every value the raw query gives for `key`, in order. */
  function QueryValues(query: string, key: string): seq<string> {
    FieldValues(Split(query, '&'), key)
  }

  // ---------------------------------------------------------------- notices from a query string

  /** `string(msg)`: one character per byte. */
  function Text(b: seq<byte>): (s: string)
    ensures |s| == |b|
    ensures forall i | 0 <= i < |b| :: s[i] as int == b[i]
  {
    seq(|b|, i requires 0 <= i < |b| => b[i] as char)
  }

  /** The notice one argument yields: none if it is empty, is not padded base64url, or decodes to nothing. */
  function KeptFrom(arg: string): (kept: seq<string>)
    ensures |kept| <= 1
    ensures kept != [] <==> arg != "" && DecodePadded(arg).Some? && DecodePadded(arg).value != []
    ensures kept != [] ==> kept[0] == Text(DecodePadded(arg).value)
  {
    if |arg| != 0 && DecodePadded(arg).Some? && |DecodePadded(arg).value| != 0 then
      [Text(DecodePadded(arg).value)]
    else []
  }

  /** The notices kept from the arguments, in order. */
  function Kept(args: seq<string>): (kept: seq<string>)
    ensures |kept| <= |args|
  {
    if args == [] then [] else Kept(args[..|args| - 1]) + KeptFrom(args[|args| - 1])
  }

  lemma KeptExtend(args: seq<string>, n: nat)
    requires n < |args|
    ensures Kept(args[..n + 1]) == Kept(args[..n]) + KeptFrom(args[n])
  {
    assert args[..n + 1][..n] == args[..n];
  }

  /**
   * `noticesFromQueryParameter`: nothing when the query has no `notice`
   * parameter; otherwise the banner of the notices kept from its values, which
   * is drawn even when none is kept.
   */
  method NoticesFromQueryParameter(query: string, style: int) returns (html: string)
    ensures QueryValues(query, NoticeKey) == [] ==> html == ""
    ensures QueryValues(query, NoticeKey) != [] ==> html == Banner(style, Kept(QueryValues(query, NoticeKey)))
  {
    var args := QueryValues(query, NoticeKey);
    if |args| == 0 {
      return "";
    }
    var notices: seq<string> := [];
    for n := 0 to |args|
      invariant notices == Kept(args[..n])
    {
      KeptExtend(args, n);
      var arg := args[n];
      if |arg| != 0 {
        var msg := DecodePadded(arg);
        if msg.Some? && |msg.value| != 0 {
          notices := notices + [Text(msg.value)];
        }
      }
    }
    assert args[..|args|] == args;
    html := Render(style, notices);
  }

  // ---------------------------------------------------------------- the round trip

  /** The notices that survive the trip through the query string: the non-empty ones. */
  function NonEmptyTexts(notices: seq<seq<byte>>): (ts: seq<string>)
    ensures |ts| <= |notices|
  {
    if notices == [] then []
    else
      var last := notices[|notices| - 1];
      NonEmptyTexts(notices[..|notices| - 1]) + (if last == [] then [] else [Text(last)])
  }

  function Encodings(notices: seq<seq<byte>>): (es: seq<string>)
    ensures |es| == |notices|
  {
    seq(|notices|, i requires 0 <= i < |notices| => EncodePadded(notices[i]))
  }

  /** Encoded notices hold neither `&`, `;`, `%` nor `+`, so they pass through the query untouched. */
  lemma EncodingIsQuerySafe(b: seq<byte>)
    ensures var e := EncodePadded(b); '&' !in e && ';' !in e && '%' !in e && '+' !in e && '=' !in EncodeRaw(b)
  {
    var e := EncodePadded(b);
    var raw := EncodeRaw(b);
    forall i | 0 <= i < |e| ensures e[i] != '&' && e[i] != ';' && e[i] != '%' && e[i] != '+' {
      if i < |raw| {
        assert e[i] == raw[i] && InAlphabet(raw[i]);
      } else {
        assert e[i] == Padding(|b|)[i - |raw|];
      }
    }
    forall i | 0 <= i < |raw| ensures raw[i] != '=' {
      assert InAlphabet(raw[i]);
    }
  }

  /** A field made of a plain key, `=` and a plain value is read as that key and value. */
  lemma PairOf(k: string, v: string)
    requires '=' !in k && ';' !in k && ';' !in v
    requires Unescape(k) == Some(k) && Unescape(v) == Some(v)
    ensures Pair(k + "=" + v) == Some((k, v))
  {
    var field := k + "=" + v;
    var i := IndexOf(field, '=');
    assert field[|k|] == '=';
    assert i == |k|;
    assert field[..i] == k;
    assert field[i + 1..] == v;
  }

  /** Each parameter is read back as the key `notice` with the encoding as its value. */
  lemma ParameterPair(b: seq<byte>)
    ensures Pair(NoticeParameter(b)) == Some((NoticeKey, EncodePadded(b)))
  {
    var e := EncodePadded(b);
    EncodingIsQuerySafe(b);
    UnescapePlain(e);
    NoticeKeyPlain();
    PairOf(NoticeKey, e);
  }

  lemma NoticeKeyPlain()
    ensures '=' !in NoticeKey && ';' !in NoticeKey && Unescape(NoticeKey) == Some(NoticeKey)
  {
    UnescapePlain(NoticeKey);
  }

  /** The `notice` values of the parameters are the encodings, in order. */
  lemma {:induction false} ParameterValues(notices: seq<seq<byte>>)
    ensures FieldValues(NoticeParameters(notices), NoticeKey) == Encodings(notices)
    decreases |notices|
  {
    if notices != [] {
      var ps, es := NoticeParameters(notices), Encodings(notices);
      ParameterPair(notices[0]);
      FieldValuesCons(ps, NoticeKey, es[0]);
      ParametersTail(notices);
      EncodingsTail(notices);
      ParameterValues(notices[1..]);
      assert es == [es[0]] + es[1..];
    }
  }

  lemma ParametersTail(notices: seq<seq<byte>>)
    requires notices != []
    ensures NoticeParameters(notices)[1..] == NoticeParameters(notices[1..])
  {
    var all, tail := NoticeParameters(notices), notices[1..];
    var a, b := all[1..], NoticeParameters(tail);
    assert |a| == |b|;
    forall i | 0 <= i < |b| ensures a[i] == b[i] {
      var x := notices[i + 1];
      assert tail[i] == x;
      assert a[i] == all[i + 1] == NoticeParameter(x);
      assert b[i] == NoticeParameter(x);
    }
  }

  lemma EncodingsTail(notices: seq<seq<byte>>)
    requires notices != []
    ensures Encodings(notices)[1..] == Encodings(notices[1..])
  {
    var all, tail := Encodings(notices), notices[1..];
    var a, b := all[1..], Encodings(tail);
    assert |a| == |b|;
    forall i | 0 <= i < |b| ensures a[i] == b[i] {
      var x := notices[i + 1];
      assert tail[i] == x;
      assert a[i] == all[i + 1] == EncodePadded(x);
      assert b[i] == EncodePadded(x);
    }
  }

  /** The query built from the notices gives back their encodings as its `notice` values. */
  lemma QueryCarriesEncodings(notices: seq<seq<byte>>)
    requires notices != []
    ensures QueryValues(Join(NoticeParameters(notices), "&"), NoticeKey) == Encodings(notices)
  {
    var ps := NoticeParameters(notices);
    forall i | 0 <= i < |ps| ensures '&' !in ps[i] {
      EncodingIsQuerySafe(notices[i]);
    }
    JoinSplit(ps, '&');
    ParameterValues(notices);
  }

  /** Decoding the encodings keeps exactly the non-empty notices, as text, in order. */
  lemma {:induction false} KeptEncodings(notices: seq<seq<byte>>)
    ensures Kept(Encodings(notices)) == NonEmptyTexts(notices)
    decreases |notices|
  {
    if notices != [] {
      var init := notices[..|notices| - 1];
      var last := notices[|notices| - 1];
      assert Encodings(notices)[..|notices| - 1] == Encodings(init);
      KeptEncodings(init);
      PaddedRoundTrip(last);
      assert |EncodePadded(last)| == 0 ==> |EncodeRaw(last)| == 0;
    }
  }

  /**
   * A redirect that carries notices in its query shows, on the next page, the
   * banner of those notices, less the empty ones.
   */
  lemma NoticesRoundTrip(notices: seq<seq<byte>>, style: int)
    requires notices != []
    ensures var args := QueryValues(Join(NoticeParameters(notices), "&"), NoticeKey);
      && args != []
      && Banner(style, Kept(args)) == Banner(style, NonEmptyTexts(notices))
  {
    QueryCarriesEncodings(notices);
    KeptEncodings(notices);
  }

  // ---------------------------------------------------------------- the round

  /** Where `now` falls among the round's start, closing and end times. */
  datatype Phase = PreRegistration | Playing | Closing | Ended {
    predicate Signup() { this == PreRegistration || this == Playing }
    predicate Started() { this == Playing || this == Closing }
    predicate IsClosing() { this == Closing }
    predicate Finished() { this == Ended }
  }

  /** The first of the round's times that `now` is before decides the phase. */
  function PhaseAt(now: int, begin: int, closing: int, end: int): (p: Phase)
    ensures p == PreRegistration <==> now < begin
    ensures p == Playing <==> begin <= now < closing
    ensures p == Closing <==> begin <= now && closing <= now < end
    ensures p == Ended <==> begin <= now && closing <= now && end <= now
  {
    if now < begin then PreRegistration
    else if now < closing then Playing
    else if now < end then Closing
    else Ended
  }

  /** The notice about the round's timing a page shows; the wording comes from the language files. */
  datatype TimeNotice = NoNotice | WillBegin(untilBegin: int) | WillEnd(untilEnd: int) | HasEnded

  /** `sv.Round`: the phase flags and time notice of the current request. */
  class Round {
    var signup: bool
    var started: bool
    var closing: bool
    var finished: bool
    var timeNotice: TimeNotice

    constructor ()
      ensures !signup && !started && !closing && !finished && timeNotice == NoNotice
    {
      signup, started, closing, finished := false, false, false, false;
      timeNotice := NoNotice;
    }

    /**
     * The round block of `indexPhpHandler`: sets the four flags from the phase
     * and, except during normal play, the time notice.
     */
    method Update(now: int, begin: int, closing': int, end: int)
      modifies this
      ensures var p := PhaseAt(now, begin, closing', end);
        && signup == p.Signup() && started == p.Started() && closing == p.IsClosing() && finished == p.Finished()
      ensures now < begin ==> timeNotice == WillBegin(begin - now)
      ensures begin <= now < closing' ==> timeNotice == old(timeNotice)
      ensures begin <= now && closing' <= now < end ==> timeNotice == WillEnd(end - now)
      ensures begin <= now && closing' <= now && end <= now ==> timeNotice == HasEnded
    {
      if now < begin {
        signup, started, closing, finished := true, false, false, false;
        timeNotice := WillBegin(begin - now);
      } else if now < closing' {
        signup, started, closing, finished := true, true, false, false;
      } else if now < end {
        signup, started, closing, finished := false, true, true, false;
        timeNotice := WillEnd(end - now);
      } else {
        signup, started, closing, finished := false, false, false, true;
        timeNotice := HasEnded;
      }
    }
  }

  /** The phase flags by time, for a round whose times are in order. */
  lemma PhaseFlags(now: int, begin: int, closing: int, end: int)
    requires begin <= closing <= end
    ensures var p := PhaseAt(now, begin, closing, end);
      && (p.Signup() <==> now < closing)
      && (p.Started() <==> begin <= now < end)
      && (p.IsClosing() <==> closing <= now < end)
      && (p.Finished() <==> end <= now)
      && (p.Finished() ==> !p.Signup() && !p.Started() && !p.IsClosing())
  {
  }

  function PhaseIndex(p: Phase): nat {
    match p
    case PreRegistration => 0
    case Playing => 1
    case Closing => 2
    case Ended => 3
  }

  /** For a round whose times are in order, the phase only moves forward as time passes. */
  lemma PhaseMonotone(t1: int, t2: int, begin: int, closing: int, end: int)
    requires begin <= closing <= end && t1 <= t2
    ensures PhaseIndex(PhaseAt(t1, begin, closing, end)) <= PhaseIndex(PhaseAt(t2, begin, closing, end))
  {
  }

  // ---------------------------------------------------------------- the action

  const MaxActionLength := 64

  /** The requested action, cut to its first 64 bytes when it is longer. */
  function TruncateAction(action: string): (r: string)
    ensures |r| == if |action| <= MaxActionLength then |action| else MaxActionLength
    ensures r == action[..|r|]
  {
    if |action| > MaxActionLength then action[..MaxActionLength] else action
  }

  /** An action within the limit is untouched, and truncating twice is truncating once. */
  lemma TruncateActionIdempotent(action: string)
    ensures |action| <= MaxActionLength ==> TruncateAction(action) == action
    ensures TruncateAction(TruncateAction(action)) == TruncateAction(action)
  {
  }
}
