/** The string operations of the source language that the printers and parsers rely on. */
module Text {

  ghost predicate AllDigits(s: string) {
    forall i :: 0 <= i < |s| ==> '0' <= s[i] <= '9'
  }

  /** Decimal notation without leading zeros. */
  function Decimal(n: nat): (s: string)
    ensures s != "" && AllDigits(s)
    ensures s[0] == '0' <==> n == 0
    ensures n == 0 ==> s == "0"
  {
    if n < 10 then [DigitChar(n)] else Decimal(n / 10) + [DigitChar(n % 10)]
  }

  function DigitChar(d: nat): (c: char)
    requires d < 10
    ensures '0' <= c <= '9' && DigitValue(c) == d
    ensures c == '0' <==> d == 0
  {
    '0' + d as char
  }

  function DigitValue(c: char): (d: nat)
    requires '0' <= c <= '9'
    ensures d < 10
  {
    (c - '0') as nat
  }

  function ParseDecimal(s: string): nat
    requires AllDigits(s)
  {
    if s == "" then 0 else 10 * ParseDecimal(s[..|s| - 1]) + DigitValue(s[|s| - 1])
  }

  lemma {:induction false} ParseOfDecimal(n: nat)
    ensures ParseDecimal(Decimal(n)) == n
  {
    if n < 10 {
      assert Decimal(n)[..0] == "";
    } else {
      ParseOfDecimal(n / 10);
      assert Decimal(n)[..|Decimal(n)| - 1] == Decimal(n / 10);
    }
  }

  lemma DigitOfValue(c: char)
    requires '0' <= c <= '9'
    ensures DigitChar(DigitValue(c)) == c
  {
  }

  /** A digit string is what its own value prints as exactly when it has no leading zero to spare. */
  lemma {:induction false} DecimalOfParse(s: string)
    requires AllDigits(s) && s != ""
    ensures Decimal(ParseDecimal(s)) == s <==> s[0] != '0' || |s| == 1
    ensures s[0] != '0' ==> ParseDecimal(s) > 0
  {
    DigitOfValue(s[|s| - 1]);
    if |s| == 1 {
      assert s[..0] == "";
    } else {
      var init := s[..|s| - 1];
      DecimalOfParse(init);
      if s[0] != '0' {
        assert Decimal(ParseDecimal(s)) == init + [s[|s| - 1]];
      }
    }
  }

  /** An integer as a template literal prints it. */
  function IntText(n: int): string {
    if n < 0 then "-" + Decimal(-n) else Decimal(n)
  }

  function Magnitude(s: string): string {
    if s != "" && s[0] == '-' then s[1..] else s
  }

  /** The pattern of an optional minus sign and at least one digit. */
  ghost predicate IsIntText(s: string) {
    Magnitude(s) != "" && AllDigits(Magnitude(s))
  }

  ghost function ParseInt(s: string): int
    requires IsIntText(s)
  {
    if s[0] == '-' then 0 - ParseDecimal(s[1..]) else ParseDecimal(s)
  }

  lemma ParseOfIntText(n: int)
    ensures IsIntText(IntText(n)) && ParseInt(IntText(n)) == n
  {
    var s := IntText(n);
    if n < 0 {
      ParseOfDecimal(-n);
      assert s[0] == '-' && s[1..] == Decimal(-n);
    } else {
      ParseOfDecimal(n);
      assert s[0] != '-';
    }
  }

  /** Neither a leading zero nor a minus zero. */
  predicate CanonicalInt(s: string) {
    s == "0" || (Magnitude(s) != "" && Magnitude(s)[0] != '0')
  }

  lemma IntTextOfParse(s: string)
    requires IsIntText(s)
    ensures IntText(ParseInt(s)) == s <==> CanonicalInt(s)
  {
    var m := Magnitude(s);
    DecimalOfParse(m);
    hide Decimal, ParseDecimal, AllDigits;
    var d := Decimal(ParseDecimal(m));
    if s[0] == '-' && ParseDecimal(m) > 0 {
      assert IntText(ParseInt(s)) == "-" + d && ("-" + d)[1..] == d;
    }
  }

  // ----- Splitting and joining -----

  /** `s.split(sep)` for a single character. */
  function Split(s: string, sep: char): (parts: seq<string>)
    ensures parts != []
    ensures forall i :: 0 <= i < |parts| ==> sep !in parts[i]
  {
    if s == "" then [""]
    else
      var parts := Split(s[..|s| - 1], sep);
      if s[|s| - 1] == sep then parts + [""]
      else parts[..|parts| - 1] + [parts[|parts| - 1] + [s[|s| - 1]]]
  }

  /** `parts.join(sep)`. */
  function Join(parts: seq<string>, sep: char): string
    requires parts != []
  {
    if |parts| == 1 then parts[0] else Join(parts[..|parts| - 1], sep) + [sep] + parts[|parts| - 1]
  }

  lemma {:induction false} JoinOfSplit(s: string, sep: char)
    ensures Join(Split(s, sep), sep) == s
  {
    if s == "" {
    } else {
      var init, c := s[..|s| - 1], s[|s| - 1];
      var parts := Split(init, sep);
      JoinOfSplit(init, sep);
      assert s == init + [c];
      if c == sep {
        assert (parts + [""])[..|parts|] == parts;
      } else {
        var last := parts[|parts| - 1];
        var longer := parts[..|parts| - 1] + [last + [c]];
        assert longer[..|parts| - 1] == parts[..|parts| - 1];
        if |parts| > 1 {
          assert Join(longer, sep) == Join(parts[..|parts| - 1], sep) + [sep] + (last + [c]);
        }
      }
    }
  }

  /** What follows a separator, if it has none itself, is the last part. */
  lemma {:induction false} SplitOfAppend(a: string, sep: char, b: string)
    requires sep !in b
    ensures Split(a + [sep] + b, sep) == Split(a, sep) + [b]
    decreases |b|
  {
    var s := a + [sep] + b;
    if b == "" {
      assert s[..|s| - 1] == a && s[|s| - 1] == sep;
    } else {
      var init, c := b[..|b| - 1], b[|b| - 1];
      SplitOfAppend(a, sep, init);
      assert s[..|s| - 1] == a + [sep] + init && s[|s| - 1] == c;
      assert init + [c] == b;
    }
  }
}
