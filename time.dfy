// Conversion of a schedule time "H:M:S" into a number of seconds.
//
// The string is split on ':'; the three parts must each read as a decimal
// integer, and the hours must lie in [0, 30], the minutes and seconds in
// [0, 60). Anything else (wrong number of parts, a part that is not an
// integer, a value out of range) yields None.

module TimeParsing {

  datatype Option<T> = None | Some(value: T)

  /** Splitting on a separator: the pieces between consecutive separators. */
  function Split(s: string, sep: char): (parts: seq<string>)
    ensures |parts| >= 1
    ensures forall i :: 0 <= i < |parts| ==> sep !in parts[i]
    ensures Join(parts, sep) == s
    decreases |s|
  {
    if |s| == 0 then [""]
    else
      var rest := Split(s[1..], sep);
      if s[0] == sep then [""] + rest
      else [[s[0]] + rest[0]] + rest[1..]
  }

  /** The inverse of Split: the pieces glued back with the separator between them. */
  function Join(parts: seq<string>, sep: char): string
    requires |parts| >= 1
    decreases |parts|
  {
    if |parts| == 1 then parts[0] else parts[0] + [sep] + Join(parts[1..], sep)
  }

  lemma {:induction false} SplitJoin(parts: seq<string>, sep: char)
    requires |parts| >= 1
    requires forall i :: 0 <= i < |parts| ==> sep !in parts[i]
    ensures Split(Join(parts, sep), sep) == parts
    decreases |parts|, |parts[0]|
  {
    if |parts| == 1 {
      SplitNoSep(parts[0], sep);
    } else if |parts[0]| == 0 {
      var tail := Join(parts[1..], sep);
      assert Join(parts, sep) == [sep] + tail;
      assert ([sep] + tail)[1..] == tail;
      SplitJoin(parts[1..], sep);
      assert parts == [""] + parts[1..];
    } else {
      var p0 := parts[0];
      var shorter := [p0[1..]] + parts[1..];
      assert shorter[1..] == parts[1..];
      assert Join(shorter, sep) == p0[1..] + [sep] + Join(parts[1..], sep);
      assert Join(parts, sep) == [p0[0]] + Join(shorter, sep);
      assert (sep !in shorter[0]) by { assert forall c :: c in p0[1..] ==> c in p0; }
      SplitJoin(shorter, sep);
      assert ([p0[0]] + Join(shorter, sep))[1..] == Join(shorter, sep);
      assert [p0[0]] + p0[1..] == p0;
    }
  }

  lemma {:induction false} SplitNoSep(s: string, sep: char)
    requires sep !in s
    ensures Split(s, sep) == [s]
    decreases |s|
  {
    if |s| > 0 {
      assert sep !in s[1..] by { assert forall c :: c in s[1..] ==> c in s; }
      SplitNoSep(s[1..], sep);
      assert [s[0]] + s[1..] == s;
    }
  }

  predicate IsDigit(c: char) { '0' <= c <= '9' }

  predicate AllDigits(s: string) { forall i :: 0 <= i < |s| ==> IsDigit(s[i]) }

  /** The decimal value of a string of digits, most significant digit first. */
  function DigitsValue(s: string): (n: nat)
    requires AllDigits(s)
    decreases |s|
  {
    if |s| == 0 then 0
    else DigitsValue(s[..|s| - 1]) * 10 + (s[|s| - 1] as int - '0' as int)
  }

  /**
   * Reading a part as an integer: an optional sign followed by at least one
   * decimal digit. Any other string is rejected, as Python's int() rejects it
   * with a ValueError.
   */
  function ParseInt(s: string): (r: Option<int>)
    ensures r.Some? <==>
      (|s| > 0 && AllDigits(s)) ||
      (|s| > 1 && (s[0] == '-' || s[0] == '+') && AllDigits(s[1..]))
    ensures |s| > 0 && AllDigits(s) ==> r == Some(DigitsValue(s) as int)
  {
    if |s| > 0 && AllDigits(s) then Some(DigitsValue(s) as int)
    else if |s| > 1 && s[0] == '-' && AllDigits(s[1..]) then Some(-(DigitsValue(s[1..]) as int))
    else if |s| > 1 && s[0] == '+' && AllDigits(s[1..]) then Some(DigitsValue(s[1..]))
    else None
  }

  /** The range check on the three fields. */
  predicate InRange(h: int, m: int, s: int)
  {
    0 <= h <= 30 && 0 <= m < 60 && 0 <= s < 60
  }

  /** Converts "H:M:S" into seconds, or None when the string is not a valid time. */
  function TimeToSeconds(t: string): (r: Option<int>)
    ensures r.Some? ==> 0 <= r.value < 31 * 3600
    ensures var parts := Split(t, ':');
      r.Some? <==>
        |parts| == 3 &&
        ParseInt(parts[0]).Some? && ParseInt(parts[1]).Some? && ParseInt(parts[2]).Some? &&
        InRange(ParseInt(parts[0]).value, ParseInt(parts[1]).value, ParseInt(parts[2]).value)
    ensures r.Some? ==>
      var parts := Split(t, ':');
      r.value == ParseInt(parts[0]).value * 3600 + ParseInt(parts[1]).value * 60 + ParseInt(parts[2]).value
  {
    var parts := Split(t, ':');
    if |parts| != 3 then None
    else
      match (ParseInt(parts[0]), ParseInt(parts[1]), ParseInt(parts[2]))
      case (Some(h), Some(m), Some(s)) =>
        if !InRange(h, m, s) then None else Some(h * 3600 + m * 60 + s)
      case _ => None
  }

  /** Decimal digits of a natural number, without leading zeros. */
  function NatToString(n: nat): (s: string)
    ensures |s| > 0 && AllDigits(s)
    ensures DigitsValue(s) == n
    decreases n
  {
    var d := [('0' as int + n % 10) as char];
    if n < 10 then d
    else
      var prefix := NatToString(n / 10);
      var s := prefix + d;
      assert s[..|s| - 1] == prefix;
      s
  }

  /** Decimal text of an integer, with a leading '-' when it is negative. */
  function IntToString(i: int): string
  {
    if i < 0 then "-" + NatToString(-i) else NatToString(i)
  }

  lemma {:induction false} ParseIntToString(i: int)
    ensures ParseInt(IntToString(i)) == Some(i)
  {
    if i < 0 {
      var s := IntToString(i);
      assert s[1..] == NatToString(-i);
      assert !AllDigits(s) by { assert !IsDigit(s[0]); }
    }
  }

  /** The text "H:M:S" for three integers. */
  function FormatTime(h: int, m: int, s: int): string
  {
    Join([IntToString(h), IntToString(m), IntToString(s)], ':')
  }

  /** A formatted time reads back as its number of seconds exactly when it is in range. */
  lemma FormatThenParse(h: int, m: int, s: int)
    ensures TimeToSeconds(FormatTime(h, m, s)) ==
      if InRange(h, m, s) then Some(h * 3600 + m * 60 + s) else None
  {
    var parts := [IntToString(h), IntToString(m), IntToString(s)];
    forall i | 0 <= i < 3 ensures ':' !in parts[i] {
      var x := if i == 0 then h else if i == 1 then m else s;
      NoColonInInt(x);
    }
    SplitJoin(parts, ':');
    ParseIntToString(h);
    ParseIntToString(m);
    ParseIntToString(s);
  }

  lemma NoColonInInt(i: int)
    ensures ':' !in IntToString(i)
  {
    var t := if i < 0 then NatToString(-i) else NatToString(i);
    assert forall k :: 0 <= k < |t| ==> t[k] != ':';
  }

  /** A valid time determines its hour, minute and second fields. */
  lemma {:induction false} SecondsDetermineFields(t: string)
    requires TimeToSeconds(t).Some?
    ensures var r := TimeToSeconds(t).value;
      var parts := Split(t, ':');
      ParseInt(parts[0]).value == r / 3600 &&
      ParseInt(parts[1]).value == (r / 60) % 60 &&
      ParseInt(parts[2]).value == r % 60
  {
    var parts := Split(t, ':');
    var h, m, s := ParseInt(parts[0]).value, ParseInt(parts[1]).value, ParseInt(parts[2]).value;
    var r := h * 3600 + m * 60 + s;
    assert 0 <= m * 60 + s < 3600;
    assert r / 3600 == h;
    assert r / 60 == h * 60 + m;
    assert (h * 60 + m) % 60 == m;
  }
}
