/**
 The pagination cursor: base64url of "timestamp|limit". Time formatting and base64 are
 library code; they come in as a pair of functions each with its inverse.
 */
module Cursor {
  import opened Prelude
  import opened GoText

  datatype Codec = Codec(
    formatTime: int -> Text, parseTime: Text -> Option<int>,
    base64: Text -> Text, unbase64: Text -> Option<Text>)

  /** RFC 3339 text holds no '|', and each decoder undoes its encoder. */
  ghost predicate Lawful(c: Codec) {
    && (forall t :: c.parseTime(c.formatTime(t)) == Some(t))
    && (forall t :: '|' !in c.formatTime(t))
    && (forall s :: c.unbase64(c.base64(s)) == Some(s))
    && (forall s :: s != [] ==> c.base64(s) != [])
  }

  const BAR: Text := "|"

  /** strings.Split on '|' */
  function Split(s: Text): (parts: seq<Text>)
    ensures parts != []
  {
    if s == [] then [[]]
    else
      var rest := Split(s[1..]);
      if s[0] == '|' then [[]] + rest else [[s[0]] + rest[0]] + rest[1..]
  }

  function DigitPrefix(s: Text): Text {
    if s == [] || !IsDigit(s[0]) then [] else [s[0]] + DigitPrefix(s[1..])
  }

  /** Sscanf with %d: an optional sign and at least one digit; what follows is ignored. */
  function ScanInt(s: Text): Option<int> {
    if s != [] && s[0] == ' ' then ScanInt(s[1..])
    else
      var signed := s != [] && (s[0] == '-' || s[0] == '+');
      var n :- ParseDigits(DigitPrefix(if signed then s[1..] else s));
      Some(if signed && s[0] == '-' then 0 - n else n as int)
  }

  function EncodeCursor(c: Codec, limit: int, created: int): Text {
    c.base64(c.formatTime(created) + BAR + FormatInt(limit))
  }

  function DecodeCursor(c: Codec, cursor: Text): Option<(int, int)> {
    var data :- c.unbase64(cursor);
    var parts := Split(data);
    if |parts| != 2 then None
    else
      var t :- c.parseTime(parts[0]);
      var limit :- ScanInt(parts[1]);
      Some((t, limit))
  }

  lemma {:induction false} SplitWithoutBar(s: Text)
    requires '|' !in s
    ensures Split(s) == [s]
  {
    if s != [] {
      assert s == [s[0]] + s[1..] && s[0] in s;
      SplitWithoutBar(s[1..]);
    }
  }

  lemma {:induction false} SplitAtBar(a: Text, b: Text)
    requires '|' !in a && '|' !in b
    ensures Split(a + BAR + b) == [a, b]
  {
    var s := a + BAR + b;
    if a == [] {
      assert s[1..] == b;
      SplitWithoutBar(b);
    } else {
      assert s[1..] == a[1..] + BAR + b && a[0] in a;
      SplitAtBar(a[1..], b);
      assert [a[0]] + a[1..] == a;
    }
  }

  lemma {:induction false} DigitPrefixOfDigits(s: Text)
    requires forall c | c in s :: IsDigit(c)
    ensures DigitPrefix(s) == s
  {
    if s != [] {
      DigitPrefixOfDigits(s[1..]);
      assert s == [s[0]] + s[1..] && s[0] in s;
    }
  }

  lemma ScanDigits(digits: Text, n: nat)
    requires digits != [] && (forall c | c in digits :: IsDigit(c)) && ParseDigits(digits) == Some(n)
    ensures ScanInt(digits) == Some(n) && ScanInt(['-'] + digits) == Some(0 - n)
    ensures '|' !in digits && '|' !in ['-'] + digits
  {
    hide ParseDigits;
    DigitPrefixOfDigits(digits);
    assert digits[0] in digits && IsDigit(digits[0]);
    assert (['-'] + digits)[1..] == digits;
  }

  lemma ScanIntOfFormatInt(n: int)
    ensures ScanInt(FormatInt(n)) == Some(n) && '|' !in FormatInt(n)
  {
    hide ScanInt, ParseDigits, Digits;
    var size: nat := if n < 0 then -n else n;
    ParseDigitsOfDigits(size);
    ScanDigits(Digits(size), size);
  }

  lemma CursorRoundTrip(c: Codec, limit: int, created: int)
    requires Lawful(c)
    ensures EncodeCursor(c, limit, created) != []
    ensures DecodeCursor(c, EncodeCursor(c, limit, created)) == Some((created, limit))
    ensures c.unbase64(EncodeCursor(c, limit, created)) == Some(c.formatTime(created) + "|" + FormatInt(limit))
  {
    ScanIntOfFormatInt(limit);
    SplitAtBar(c.formatTime(created), FormatInt(limit));
  }

  /** A cursor whose text has no bar or more than one is refused; with one bar both parts must be readable. */
  lemma DecodeMeans(c: Codec, cursor: Text, a: Text, b: Text, d: Text)
    requires '|' !in a && '|' !in b
    ensures c.unbase64(cursor) == None ==> DecodeCursor(c, cursor) == None
    ensures c.unbase64(cursor) == Some(a) ==> DecodeCursor(c, cursor) == None
    ensures c.unbase64(cursor) == Some(a + BAR + (b + BAR + d)) ==> DecodeCursor(c, cursor) == None
    ensures c.unbase64(cursor) == Some(a + BAR + b) ==>
              DecodeCursor(c, cursor) ==
              if c.parseTime(a).None? || ScanInt(b).None? then None
              else Some((c.parseTime(a).value, ScanInt(b).value))
  {
    hide ScanInt;
    SplitWithoutBar(a);
    SplitAtBar(a, b);
    SplitFirst(a, b + BAR + d);
    SplitFirst(b, d);
  }

  lemma {:induction false} SplitFirst(a: Text, rest: Text)
    requires '|' !in a
    ensures Split(a + BAR + rest) == [a] + Split(rest)
  {
    var s := a + BAR + rest;
    if a == [] {
      assert s[1..] == rest;
    } else {
      assert s[1..] == a[1..] + BAR + rest;
      SplitFirst(a[1..], rest);
      assert a == [a[0]] + a[1..];
    }
  }
}
