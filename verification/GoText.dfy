/**
 Go strings, which are sequences of bytes, and the library calls the dump code makes on
 them: strings.Join, strings.ReplaceAll with a one-byte pattern, and strconv.FormatInt.
 */
module GoText {
  import opened Prelude

  type byte = c: char | c as int < 256 witness 'a'
  type Text = seq<byte>

  /** strings.Join */
  function Join(parts: seq<Text>, sep: Text): Text {
    if |parts| == 0 then []
    else if |parts| == 1 then parts[0]
    else parts[0] + sep + Join(parts[1..], sep)
  }

  /** strings.ReplaceAll for a pattern of one byte. */
  function ReplaceAll(s: Text, target: byte, fill: Text): Text {
    if s == [] then [] else (if s[0] == target then fill else [s[0]]) + ReplaceAll(s[1..], target, fill)
  }

  predicate IsDigit(c: byte) { '0' <= c <= '9' }

  function Digit(n: nat): byte
    requires n < 10
  {
    ('0' as int + n) as char
  }

  function Digits(n: nat): (s: Text)
    ensures s != [] && forall c | c in s :: IsDigit(c)
  {
    if n < 10 then [Digit(n)] else Digits(n / 10) + [Digit(n % 10)]
  }

  /** strconv.FormatInt in base 10. */
  function FormatInt(n: int): Text {
    if n < 0 then "-" + Digits(-n) else Digits(n)
  }

  /** The value of a run of decimal digits, as a SQL lexer reads it. */
  function ParseDigits(s: Text): Option<nat> {
    if s == [] || !IsDigit(s[|s| - 1]) then None
    else
      var d := s[|s| - 1] as int - '0' as int;
      if |s| == 1 then Some(d)
      else
        var high :- ParseDigits(s[..|s| - 1]);
        Some(high * 10 + d)
  }

  function ParseInt(s: Text): Option<int> {
    if s != [] && s[0] == '-' then
      var n :- ParseDigits(s[1..]);
      Some(0 - n as int)
    else
      var n :- ParseDigits(s);
      Some(n)
  }

  lemma {:induction false} ParseDigitsOfDigits(n: nat)
    ensures ParseDigits(Digits(n)) == Some(n)
  {
    var s := Digits(n);
    if n >= 10 {
      ParseDigitsOfDigits(n / 10);
      assert s[..|s| - 1] == Digits(n / 10);
    }
  }

  lemma ParseIntOfFormatInt(n: int)
    ensures ParseInt(FormatInt(n)) == Some(n)
  {
    if n < 0 {
      ParseDigitsOfDigits(-n);
      assert FormatInt(n)[1..] == Digits(-n);
    } else {
      ParseDigitsOfDigits(n);
      assert FormatInt(n)[0] in Digits(n);
    }
  }
}
