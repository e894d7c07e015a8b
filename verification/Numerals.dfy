/** Integers as text on the way in: what Python's int(str) takes, read from the left, and what such a
    text denotes, said of the text as a whole. */
module Numerals {
  import opened Wrappers
  import opened Text
  import opened Decimal

  /** The digits of a decimal literal, single underscores between them dropped. */
  function Digits(s: string, afterDigit: bool): (r: Option<string>)
    ensures r.Some? ==> AllDigits(r.value)
  {
    if s == "" then (if afterDigit then Some("") else None)
    else if IsDigit(s[0]) then
      var rest := Digits(s[1..], true);
      if rest.Some? then Some([s[0]] + rest.value) else None
    else if s[0] == '_' && afterDigit then Digits(s[1..], false)
    else None
  }

  function Signed(sign: int, s: string): Option<int> {
    var d := Digits(s, false);
    if d.Some? then Some(sign * StringToNat(d.value)) else None
  }

  /** int(raw) */
  function ParseInt(raw: string): Option<int> {
    var t := Strip(raw);
    if t != "" && t[0] == '-' then Signed(-1, t[1..])
    else if t != "" && t[0] == '+' then Signed(1, t[1..])
    else Signed(1, t)
  }

  // ----- what a text denotes -----

  predicate DigitsAndUnderscores(s: string) {
    forall i :: 0 <= i < |s| ==> IsDigit(s[i]) || s[i] == '_'
  }

  /** Digits with single underscores between them: none at either end, no two in a row. */
  ghost predicate Grouped(s: string) {
    && DigitsAndUnderscores(s) && s != "" && s[0] != '_' && s[|s| - 1] != '_'
    && forall i, j :: 0 <= i < j < |s| && j == i + 1 ==> s[i] != '_' || s[j] != '_'
  }

  function WithoutUnderscores(s: string): (r: string)
    ensures DigitsAndUnderscores(s) ==> AllDigits(r)
  {
    if s == "" then "" else (if s[0] == '_' then "" else [s[0]]) + WithoutUnderscores(s[1..])
  }

  predicate AllSpace(s: string) {
    forall i :: 0 <= i < |s| ==> IsSpace(s[i])
  }

  ghost predicate Spelled(text: string, before: string, sign: string, body: string, after: string) {
    && text == before + (sign + body) + after
    && AllSpace(before) && AllSpace(after) && (sign == "" || sign == "+" || sign == "-") && Grouped(body)
  }

  /** The text is an integer literal for n: an optional sign and well-grouped digits, with white space
      around them. */
  ghost predicate Denotes(text: string, n: int) {
    exists before, sign, body, after ::
      Spelled(text, before, sign, body, after)
      && n == (if sign == "-" then -1 else 1) * StringToNat(WithoutUnderscores(body))
  }

  /** What may follow a digit, or stand where a digit must come next. */
  ghost predicate Continues(s: string, afterDigit: bool) {
    if s == "" then afterDigit
    else
      && DigitsAndUnderscores(s) && (s[0] == '_' ==> afterDigit) && s[|s| - 1] != '_'
      && forall i, j :: 0 <= i < j < |s| && j == i + 1 ==> s[i] != '_' || s[j] != '_'
  }

  lemma {:induction false} DigitsMeans(s: string, afterDigit: bool)
    ensures Digits(s, afterDigit).Some? <==> Continues(s, afterDigit)
    ensures Continues(s, afterDigit) ==> Digits(s, afterDigit) == Some(WithoutUnderscores(s))
  {
    if s == "" {
    } else {
      DigitsMeans(s[1..], IsDigit(s[0]));
      ContinuesOneLess(s, afterDigit);
      hide Continues;
      assert "" + WithoutUnderscores(s[1..]) == WithoutUnderscores(s[1..]);
    }
  }

  lemma ContinuesOneLess(s: string, afterDigit: bool)
    requires s != ""
    ensures Continues(s, afterDigit) <==>
            (IsDigit(s[0]) || (s[0] == '_' && afterDigit)) && Continues(s[1..], IsDigit(s[0]))
  {
    var t := s[1..];
    if Continues(s, afterDigit) && t != "" {
      assert s[0] == '_' ==> s[1] != '_';
    }
    if (IsDigit(s[0]) || (s[0] == '_' && afterDigit)) && Continues(t, IsDigit(s[0])) {
      assert t != "" ==> s[|s| - 1] == t[|t| - 1];
      forall i, j | 0 <= i < j < |s| && j == i + 1 ensures s[i] != '_' || s[j] != '_' {
        if i > 0 {
          assert t[i - 1] == s[i] && t[j - 1] == s[j];
        }
      }
      forall i | 0 <= i < |s| ensures IsDigit(s[i]) || s[i] == '_' {
        if i > 0 {
          assert t[i - 1] == s[i];
        }
      }
    }
  }

  /** Reading an integer is exact: a text is taken for n exactly when it denotes n. */
  lemma ParseIntMeans(text: string, n: int)
    ensures ParseInt(text) == Some(n) <==> Denotes(text, n)
  {
    if ParseInt(text) == Some(n) {
      ReadDenotes(text, n);
    }
    if Denotes(text, n) {
      var before, sign, body, after :|
        Spelled(text, before, sign, body, after)
        && n == (if sign == "-" then -1 else 1) * StringToNat(WithoutUnderscores(body));
      SpelledIsRead(text, before, sign, body, after);
    }
  }

  /** The sign and the rest of a text that begins where its white space ends. */
  function SignOf(t: string): (sign: string)
    ensures sign == "" || sign == "+" || sign == "-"
    ensures |sign| <= |t| && t == sign + t[|sign|..]
  {
    if t != "" && (t[0] == '-' || t[0] == '+') then t[..1] else ""
  }

  /** Reading goes by the sign, where there is one, and the digits after it. */
  lemma ParseIntSplits(text: string)
    ensures var t := Strip(text);
            ParseInt(text) == Signed(if SignOf(t) == "-" then -1 else 1, t[|SignOf(t)|..])
  {
    hide Strip, Signed;
    var t := Strip(text);
    if t != "" && t[0] == '-' {
      assert t[..1] == "-";
    } else if t != "" && t[0] == '+' {
      assert t[..1] == "+" && "+"[0] != "-"[0];
    } else {
      assert t[0..] == t;
    }
  }

  lemma {:induction false} SignedMeans(sign: int, body: string)
    ensures Signed(sign, body).Some? <==> Grouped(body)
    ensures Grouped(body) ==> Signed(sign, body) == Some(sign * StringToNat(WithoutUnderscores(body)))
  {
    DigitsMeans(body, false);
    hide Digits, StringToNat;
  }

  lemma ReadDenotes(text: string, n: int)
    requires ParseInt(text) == Some(n)
    ensures Denotes(text, n)
  {
    var t := Strip(text);
    var sign := SignOf(t);
    var body := t[|sign|..];
    ParseIntSplits(text);
    SignedMeans(if sign == "-" then -1 else 1, body);
    assert Grouped(body);
    assert body != "";
    hide Strip, ParseInt, Signed, Grouped, StringToNat, Spelled, SignOf, WithoutUnderscores;
    SliceIsSpelled(text, sign, body);
  }

  lemma {:induction false} SliceIsSpelled(text: string, sign: string, body: string)
    requires sign + body == Strip(text) != "" && (sign == "" || sign == "+" || sign == "-") && Grouped(body)
    ensures Spelled(text, text[..TextStart(text)], sign, body, text[TextEnd(text)..])
  {
    hide Grouped, Strip, IsSpace;
    StripIsASlice(text);
    var a, b := TextStart(text), TextEnd(text);
    assert AllSpace(text[..a]) && AllSpace(text[b..]);
    hide AllSpace, TextStart, TextEnd;
    assert text[..a] + text[a..b] == text[..b] && text[..b] + text[b..] == text;
  }

  lemma {:induction false} StripIsASlice(text: string)
    requires Strip(text) != ""
    ensures TextStart(text) <= TextEnd(text) && Strip(text) == text[TextStart(text)..TextEnd(text)]
  {
  }

  lemma {:induction false} StripOfPadded(before: string, t: string, after: string)
    requires AllSpace(before) && AllSpace(after) && t != "" && !IsSpace(t[0]) && !IsSpace(t[|t| - 1])
    ensures Strip(before + t + after) == t
  {
    var text := before + t + after;
    var a, b := |before|, |before| + |t|;
    hide IsSpace, Strip;
    assert text[a..b] == t && text[a] == t[0] && text[b - 1] == t[|t| - 1];
    forall i | 0 <= i < a || b <= i < |text| ensures IsSpace(text[i]) {
      assert text[i] == if i < a then before[i] else after[i - b];
    }
    StripIs(text, a, b);
  }

  lemma {:induction false} SignedEnds(sign: string, body: string)
    requires (sign == "" || sign == "+" || sign == "-") && Grouped(body)
    ensures var t := sign + body;
            t != "" && !IsSpace(t[0]) && !IsSpace(t[|t| - 1]) && SignOf(t) == sign && t[|sign|..] == body
  {
    var t := sign + body;
    assert IsDigit(body[0]) && IsDigit(body[|body| - 1]);
    assert t[|t| - 1] == body[|body| - 1] && t[0] == if sign == "" then body[0] else sign[0];
    hide Grouped;
    if sign != "" {
      assert t[..1] == sign;
    }
  }

  lemma {:induction false} StripOfSpelled(text: string, before: string, sign: string, body: string, after: string)
    requires Spelled(text, before, sign, body, after)
    ensures Strip(text) == sign + body && SignOf(sign + body) == sign && (sign + body)[|sign|..] == body
  {
    hide Grouped, Strip, SignOf, IsSpace, AllSpace;
    SignedEnds(sign, body);
    StripOfPadded(before, sign + body, after);
  }

  lemma {:induction false} SpelledIsRead(text: string, before: string, sign: string, body: string, after: string)
    requires Spelled(text, before, sign, body, after)
    ensures ParseInt(text) == Some((if sign == "-" then -1 else 1) * StringToNat(WithoutUnderscores(body)))
  {
    StripOfSpelled(text, before, sign, body, after);
    ParseIntSplits(text);
    SignedMeans(if sign == "-" then -1 else 1, body);
  }

  // ----- writing and reading -----

  /** Decimal text as str(int) writes it: no plus sign, no leading zero, nothing around it. */
  predicate Plain(s: string) {
    var d := if s != "" && s[0] == '-' then s[1..] else s;
    d != "" && AllDigits(d) && (d[0] == '0' ==> s == "0")
  }

  lemma {:induction false} DigitsOfDigits(s: string, afterDigit: bool)
    requires AllDigits(s) && (s != "" || afterDigit)
    ensures Digits(s, afterDigit) == Some(s)
  {
    if s == "" {
    } else {
      DigitsOfDigits(s[1..], true);
      assert [s[0]] + s[1..] == s;
    }
  }

  lemma DigitsHaveNoSpace(d: string)
    requires AllDigits(d)
    ensures NoSpace(d)
  {
  }

  lemma NatText(n: int)
    requires n >= 0
    ensures var d := NatToString(n);
            Signed(1, d) == Some(n) && Signed(-1, d) == Some(-n) && NoSpace(d) && IsDigit(d[0])
  {
    var d := NatToString(n);
    NatRoundTrip(n);
    DigitsOfDigits(d, false);
    DigitsHaveNoSpace(d);
    SignedDigits(1, d);
    SignedDigits(-1, d);
  }

  lemma {:induction false} SignedDigits(sign: int, d: string)
    requires AllDigits(d) && Digits(d, false) == Some(d)
    ensures Signed(sign, d) == Some(sign * StringToNat(d))
  {
  }

  lemma NatTextOfZero()
    ensures NatToString(0) == "0"
  {
  }

  /** Any integer, of any size, survives being written as text, and the text is plain. */
  lemma IntRoundTrip(n: int)
    ensures ParseInt(IntToString(n)) == Some(n)
    ensures Denotes(IntToString(n), n) && Plain(IntToString(n))
  {
    var s := IntToString(n);
    var d := NatToString(if n < 0 then -n else n);
    NatText(if n < 0 then -n else n);
    NoLeadingZero(if n < 0 then -n else n);
    assert n < 0 ==> s == "-" + d && s[1..] == d;
    NatTextOfZero();
    hide NatToString, IntToString, Strip, Digits, StringToNat;
    StripOfNoSpace(s);
    ParseIntMeans(s, n);
  }
}
