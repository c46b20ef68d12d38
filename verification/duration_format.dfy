/** The label showing the length of the current track, taken from the
    media element's total duration: whole minutes, a colon, and the seconds
    padded to two digits by prefixing "0" and keeping the last two
    characters. The duration is a whole number of seconds here. */
module DurationFormat {
  import opened Optional
  import opened Modular

  predicate IsDigit(c: char) {
    '0' <= c <= '9'
  }

  predicate AllDigits(str: string) {
    forall i :: 0 <= i < |str| ==> IsDigit(str[i])
  }

  /** A decimal numeral without superfluous leading zeros. */
  predicate Canonical(str: string) {
    |str| >= 1 && AllDigits(str) && (|str| == 1 || str[0] != '0')
  }

  function DigitChar(d: nat): (c: char)
    requires d < 10
    ensures IsDigit(c) && c as int - '0' as int == d
  {
    ('0' as int + d) as char
  }

  /** The value of a string of decimal digits, most significant first. */
  function DigitsValue(str: string): nat
    requires AllDigits(str)
    decreases |str|
  {
    if |str| == 0 then 0
    else DigitsValue(str[..|str| - 1]) * 10 + (str[|str| - 1] as int - '0' as int)
  }

  /** Decimal rendering of a natural number, as a JavaScript number is
      turned into text inside a label. */
  function NatToString(n: nat): (r: string)
    ensures Canonical(r)
    ensures n < 10 <==> |r| == 1
    decreases n
  {
    if n < 10 then [DigitChar(n)] else NatToString(n / 10) + [DigitChar(n % 10)]
  }

  /** The numeral reads back as the number it was made from. */
  lemma {:induction false} NatToStringValue(n: nat)
    ensures DigitsValue(NatToString(n)) == n
    decreases n
  {
    if n >= 10 {
      var r := NatToString(n);
      NatToStringValue(n / 10);
      assert r[..|r| - 1] == NatToString(n / 10);
    }
  }

  /** A canonical numeral is the rendering of its own value. */
  lemma {:induction false} CanonicalIsNatToString(str: string)
    requires Canonical(str)
    ensures NatToString(DigitsValue(str)) == str
    decreases |str|
  {
    var v := DigitsValue(str);
    var last := str[|str| - 1] as int - '0' as int;
    if |str| == 1 {
      assert str[..|str| - 1] == [];
      assert DigitsValue(str[..|str| - 1]) == 0;
      assert v == last;
      assert [DigitChar(v)] == str;
    } else {
      var init := str[..|str| - 1];
      assert init[0] == str[0];
      assert AllDigits(init);
      CanonicalIsNatToString(init);
      var w := DigitsValue(init);
      assert v == w * 10 + last;
      assert w >= 1 by {
        LeadingDigitPositive(init);
      }
      assert v / 10 == w && v % 10 == last;
      assert str == init + [DigitChar(last)];
    }
  }

  /** A numeral whose leading digit is not zero has a positive value. */
  lemma {:induction false} LeadingDigitPositive(str: string)
    requires AllDigits(str) && |str| >= 1 && str[0] != '0'
    ensures DigitsValue(str) >= 1
    decreases |str|
  {
    var init := str[..|str| - 1];
    if |init| >= 1 {
      assert init[0] == str[0];
      assert AllDigits(init);
      LeadingDigitPositive(init);
    } else {
      assert init == [];
    }
  }

  /** JavaScript's `slice(-2)`: the last two characters, or the whole
      string when it is shorter than that. */
  function LastTwo(str: string): (r: string)
    ensures |r| == if |str| < 2 then |str| else 2
    ensures str == str[..|str| - |r|] + r
  {
    if |str| < 2 then str else str[|str| - 2..]
  }

  /** The minutes part of the label: `floor(seconds / 60)`. */
  function MinutesField(seconds: nat): (r: string)
    ensures Canonical(r) && DigitsValue(r) == seconds / 60
  {
    NatToStringValue(seconds / 60);
    NatToString(seconds / 60)
  }

  /** Padding a value below 60 with "0" and keeping the last two
      characters gives exactly two digits worth that value. */
  lemma PaddedLastTwo(d: nat)
    requires d < 60
    ensures |LastTwo("0" + NatToString(d))| == 2
    ensures AllDigits(LastTwo("0" + NatToString(d)))
    ensures DigitsValue(LastTwo("0" + NatToString(d))) == d
  {
    if d < 10 {
      PaddedOneDigit(d);
    } else {
      PaddedTwoDigits(d);
      NatToStringValue(d);
    }
  }

  /** A one-digit value keeps its "0" pad. */
  lemma PaddedOneDigit(d: nat)
    requires d < 10
    ensures LastTwo("0" + NatToString(d)) == ['0', DigitChar(d)]
    ensures DigitsValue(['0', DigitChar(d)]) == d
  {
    assert NatToString(d) == [DigitChar(d)];
    var r := ['0', DigitChar(d)];
    assert r[..1] == ['0'];
    assert ['0'][..0] == [];
    assert DigitsValue(['0']) == 0;
  }

  /** A two-digit value loses its "0" pad. */
  lemma PaddedTwoDigits(d: nat)
    requires 10 <= d < 100
    ensures LastTwo("0" + NatToString(d)) == NatToString(d)
    ensures |NatToString(d)| == 2
  {
    var digits := NatToString(d);
    assert digits == NatToString(d / 10) + [DigitChar(d % 10)];
    assert |NatToString(d / 10)| == 1;
    var padded := "0" + digits;
    assert padded[|padded| - 2..] == digits;
  }

  /** The seconds part: `("0" + floor(seconds % 60)).slice(-2)`. */
  function SecondsField(seconds: nat): (r: string)
    ensures |r| == 2 && AllDigits(r)
    ensures DigitsValue(r) == seconds % 60
  {
    PaddedLastTwo(seconds % 60);
    LastTwo("0" + NatToString(seconds % 60))
  }

  /** The whole label, `m:SS`. */
  function FormatDuration(seconds: nat): (r: string)
    ensures |r| >= 4 && r[|r| - 3] == ':'
    ensures r[..|r| - 3] == MinutesField(seconds) && r[|r| - 2..] == SecondsField(seconds)
    ensures DigitsValue(r[..|r| - 3]) * 60 + DigitsValue(r[|r| - 2..]) == seconds
  {
    MinutesField(seconds) + ":" + SecondsField(seconds)
  }

  /** Splits a string at the colon three characters from its end into
      a non-empty minutes part and a two-character seconds part. */
  function SplitLabel(t: string): (r: Option<(string, string)>)
    ensures r.Some? ==> |r.value.0| >= 1 && |r.value.1| == 2 && t == r.value.0 + ":" + r.value.1
  {
    if |t| >= 4 && t[|t| - 3] == ':' then
      assert t == t[..|t| - 3] + ":" + t[|t| - 2..];
      Some((t[..|t| - 3], t[|t| - 2..]))
    else None
  }

  /** Joining a non-empty minutes part and a two-character seconds part
      with a colon, then splitting, gives the two parts back. */
  lemma SplitJoin(minutes: string, secs: string)
    requires |minutes| >= 1 && |secs| == 2
    ensures SplitLabel(minutes + ":" + secs) == Some((minutes, secs))
  {
    var t := minutes + ":" + secs;
    assert t[..|t| - 3] == minutes;
    assert t[|t| - 2..] == secs;
  }

  /** Reading a label back: a canonical minutes numeral, a colon, and two
      digits worth less than 60. Anything else is not a label. */
  function ParseDuration(t: string): (r: Option<nat>)
  {
    match SplitLabel(t)
    case None => None
    case Some((minutes, secs)) =>
      if Canonical(minutes) && AllDigits(secs) && DigitsValue(secs) < 60
      then Some(DigitsValue(minutes) * 60 + DigitsValue(secs))
      else None
  }

  /** A canonical minutes numeral, a colon and two digits below 60 read
      as the duration they spell. */
  lemma ParseParts(minutes: string, secs: string)
    requires Canonical(minutes) && |secs| == 2 && AllDigits(secs) && DigitsValue(secs) < 60
    ensures ParseDuration(minutes + ":" + secs) == Some(DigitsValue(minutes) * 60 + DigitsValue(secs))
  {
    SplitJoin(minutes, secs);
  }

  /** The two fields of a label, joined by a colon, read back as the
      duration they were made from. */
  lemma ParseFields(seconds: nat)
    ensures ParseDuration(MinutesField(seconds) + ":" + SecondsField(seconds)) == Some(seconds)
  {
    ParseParts(MinutesField(seconds), SecondsField(seconds));
  }

  /** Every label reads back as the duration it shows. */
  lemma FormatThenParse(seconds: nat)
    ensures ParseDuration(FormatDuration(seconds)) == Some(seconds)
  {
    ParseFields(seconds);
    assert FormatDuration(seconds) == MinutesField(seconds) + ":" + SecondsField(seconds);
  }

  /** Every string that reads as a duration is exactly that duration's
      label, so the label format and the reading are inverse. */
  lemma ParseThenFormat(t: string, seconds: nat)
    requires ParseDuration(t) == Some(seconds)
    ensures FormatDuration(seconds) == t
  {
    var (minutes, secs) := SplitLabel(t).value;
    var mv := DigitsValue(minutes);
    var sv := DigitsValue(secs);
    assert seconds == mv * 60 + sv;
    ModUnique(seconds, mv, sv, 60);
    CanonicalIsNatToString(minutes);
    assert MinutesField(seconds) == minutes;
    TwoDigitsUnique(SecondsField(seconds), secs);
    assert FormatDuration(seconds) == minutes + ":" + secs;
  }

  /** Two two-digit strings with the same value are the same string. */
  lemma TwoDigitsUnique(a: string, b: string)
    requires |a| == 2 && |b| == 2 && AllDigits(a) && AllDigits(b)
    requires DigitsValue(a) == DigitsValue(b)
    ensures a == b
  {
    assert a[..1][..0] == [] && b[..1][..0] == [];
    assert DigitsValue(a[..1]) == a[0] as int - '0' as int;
    assert DigitsValue(b[..1]) == b[0] as int - '0' as int;
    assert DigitsValue(a) == (a[0] as int - '0' as int) * 10 + (a[1] as int - '0' as int);
    assert DigitsValue(b) == (b[0] as int - '0' as int) * 10 + (b[1] as int - '0' as int);
  }

  /** Different durations never share a label. */
  lemma FormatInjective(a: nat, b: nat)
    ensures FormatDuration(a) == FormatDuration(b) ==> a == b
  {
    FormatThenParse(a);
    FormatThenParse(b);
  }
}
