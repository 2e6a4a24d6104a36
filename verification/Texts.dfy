/**
  Canonical text: decimal numerals without leading zeros, comma-separated lists
  and length-prefixed values, each with the reader that inverts it.
 */
module Texts {
  import opened Options

  type Word32 = n: nat | n < 0x1_0000_0000
  type Word64 = n: nat | n < 0x1_0000_0000_0000_0000

  /** Position of the first c, or the length when there is none. */
  function Find(text: string, c: char): (i: nat)
    ensures i <= |text| && (i < |text| ==> text[i] == c)
    ensures forall j :: 0 <= j < i ==> text[j] != c
  {
    if text == "" || text[0] == c then 0
    else Find(text[1..], c) + 1
  }

  lemma FindIsFirst(head: string, c: char, tail: string)
    requires c !in head
    ensures Find(head, c) == |head|
    ensures Find(head + [c] + tail, c) == |head|
  {
    var text := head + [c] + tail;
    assert text[|head|] == c;
  }

  // ---- Numerals ----

  predicate IsDigit(c: char) {
    '0' <= c <= '9'
  }

  function Digits(n: nat): string {
    if n < 10 then [(48 + n) as char] else Digits(n / 10) + [(48 + n % 10) as char]
  }

  function Numeric(text: string): nat
    requires forall i :: 0 <= i < |text| ==> IsDigit(text[i])
  {
    if text == "" then 0
    else
      assert IsDigit(text[|text| - 1]);
      10 * Numeric(text[..|text| - 1]) + (text[|text| - 1] as int - 48)
  }

  predicate IsNumeral(text: string) {
    && text != ""
    && (|text| > 1 ==> text[0] != '0')
    && forall i :: 0 <= i < |text| ==> IsDigit(text[i])
  }

  /** A number below the limit, or None for an empty, padded, foreign or oversized text. */
  function ParseInteger(text: string, limit: nat): (r: Option<nat>)
    ensures r.Some? ==> r.value < limit
  {
    if IsNumeral(text) && Numeric(text) < limit then Some(Numeric(text)) else None
  }

  lemma {:induction false} DigitsAreNumeral(n: nat)
    ensures IsNumeral(Digits(n)) && Numeric(Digits(n)) == n
    ensures n > 0 ==> Digits(n)[0] != '0'
  {
    if n >= 10 {
      DigitsAreNumeral(n / 10);
      var text := Digits(n);
      assert text[..|text| - 1] == Digits(n / 10);
    } else {
      assert Digits(n)[..0] == "";
    }
  }

  lemma {:induction false} NumeralIsDigits(text: string)
    requires IsNumeral(text)
    ensures Digits(Numeric(text)) == text
  {
    var head := text[..|text| - 1];
    if head == "" {
      assert text == [text[0]];
    } else {
      assert head[0] == text[0];
      NumeralIsDigits(head);
      DigitsAreNumeral(Numeric(head));
      assert text == head + [text[|text| - 1]];
    }
  }

  /** Reading a number accepts exactly its canonical decimal form. */
  lemma IntegersRoundTrip(text: string, limit: nat, n: nat)
    ensures ParseInteger(text, limit) == Some(n) <==> n < limit && text == Digits(n)
  {
    DigitsAreNumeral(n);
    if IsNumeral(text) {
      NumeralIsDigits(text);
    }
  }

  function ParseWord32(text: string): Option<Word32> {
    match ParseInteger(text, 0x1_0000_0000)
    case None => None
    case Some(n) => Some(n)
  }

  function ParseWord64(text: string): Option<Word64> {
    match ParseInteger(text, 0x1_0000_0000_0000_0000)
    case None => None
    case Some(n) => Some(n)
  }

  lemma {:induction false} DigitsOnly(n: nat, c: char)
    requires !IsDigit(c)
    ensures c !in Digits(n)
  {
    DigitsAreNumeral(n);
  }

  // ---- Comma-separated lists ----

  function Items<T>(write: T -> string, xs: seq<T>): string {
    if xs == [] then ""
    else if |xs| == 1 then write(xs[0])
    else write(xs[0]) + [','] + Items(write, xs[1..])
  }

  function ReadItems<T>(parse: string -> Option<T>, text: string): Option<seq<T>>
    decreases |text|
  {
    var comma := Find(text, ',');
    match parse(text[..comma])
    case None => None
    case Some(x) =>
      if comma == |text| then Some([x])
      else if comma + 1 == |text| then None
      else Prepended([x], ReadItems(parse, text[comma + 1..]))
  }

  function Prepended<T>(xs: seq<T>, rest: Option<seq<T>>): Option<seq<T>> {
    match rest
    case None => None
    case Some(ys) => Some(xs + ys)
  }

  /** parse accepts exactly what write produces, which is never empty and holds no comma. */
  ghost predicate Inverse<T(!new)>(parse: string -> Option<T>, write: T -> string) {
    && (forall x: T :: parse(write(x)) == Some(x) && write(x) != "" && ',' !in write(x))
    && (forall text: string :: parse(text).Some? ==> text == write(parse(text).value))
  }

  lemma {:induction false} WrittenListIsRead<T(!new)>(parse: string -> Option<T>, write: T -> string, xs: seq<T>)
    requires Inverse(parse, write) && xs != []
    ensures Items(write, xs) != "" && ReadItems(parse, Items(write, xs)) == Some(xs)
  {
    var head, text := write(xs[0]), Items(write, xs);
    if |xs| == 1 {
      FindIsFirst(head, ',', "");
      assert text[..|head|] == head;
      assert xs == [xs[0]];
    } else {
      var tail := Items(write, xs[1..]);
      WrittenListIsRead(parse, write, xs[1..]);
      FindIsFirst(head, ',', tail);
      assert text[..|head|] == head && text[|head| + 1..] == tail;
      assert xs == [xs[0]] + xs[1..];
    }
  }

  lemma ReadItem<T(!new)>(parse: string -> Option<T>, write: T -> string, text: string)
    requires Inverse(parse, write) && parse(text).Some?
    ensures write(parse(text).value) == text
  {
  }

  lemma {:induction false} ReadListIsWritten<T(!new)>(parse: string -> Option<T>, write: T -> string, text: string)
    requires Inverse(parse, write) && ReadItems(parse, text).Some?
    ensures ReadItems(parse, text).value != [] && Items(write, ReadItems(parse, text).value) == text
    decreases |text|
  {
    hide Inverse, Find;
    var comma, xs := Find(text, ','), ReadItems(parse, text).value;
    var head := text[..comma];
    ReadItem(parse, write, head);
    if comma == |text| {
      assert text == head;
    } else {
      var tail := text[comma + 1..];
      ReadListIsWritten(parse, write, tail);
      assert xs[1..] == ReadItems(parse, tail).value;
      assert text == head + [','] + tail;
    }
  }

  lemma {:induction false} ItemsSnoc<T>(write: T -> string, xs: seq<T>, x: T)
    requires xs != []
    ensures Items(write, xs + [x]) == Items(write, xs) + [','] + write(x)
  {
    var more := xs + [x];
    if |xs| == 1 {
      assert more[1..] == [x];
      assert Items(write, more[1..]) == write(x);
    } else {
      assert more[1..] == xs[1..] + [x];
      ItemsSnoc(write, xs[1..], x);
    }
  }

  // ---- Length-prefixed values ----

  predicate IsPrintable(text: string) {
    forall i :: 0 <= i < |text| ==> 0x21 <= text[i] as int <= 0x7e
  }

  function LengthPrefixed(text: string): string {
    Digits(|text|) + [':'] + text
  }

  function ParseLengthPrefixed(text: string): Option<string> {
    var colon := Find(text, ':');
    if colon == |text| then None
    else
      match ParseWord64(text[..colon])
      case None => None
      case Some(length) =>
        var tail := text[colon + 1..];
        if |tail| != length || tail == "" || !IsPrintable(tail) then None else Some(tail)
  }

  /** The value may itself contain separators: only the first colon is structural. */
  lemma LengthPrefixRoundTrips(value: string)
    requires value != "" && IsPrintable(value) && |value| < 0x1_0000_0000_0000_0000
    ensures ParseLengthPrefixed(LengthPrefixed(value)) == Some(value)
  {
    var text, head := LengthPrefixed(value), Digits(|value|);
    DigitsOnly(|value|, ':');
    FindIsFirst(head, ':', value);
    assert text[..|head|] == head && text[|head| + 1..] == value;
    IntegersRoundTrip(head, 0x1_0000_0000_0000_0000, |value|);
  }
}
