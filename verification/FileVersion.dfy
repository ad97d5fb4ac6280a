/** The parser of four-part file versions. */
module FileVersion {
  import opened Words

  datatype Version = Version(major: UInt16, minor: UInt16, patch: UInt16, build: UInt16)

  predicate IsWhitespace(c: char) {
    c == ' ' || c == '\t' || c == '\r' || c == '\n'
  }

  predicate IsDigit(c: char) {
    '0' <= c <= '9'
  }

  predicate IsSeparator(c: char) {
    c == ',' || c == '.'
  }

  predicate AllWhitespace(s: string) {
    forall i | 0 <= i < |s| :: IsWhitespace(s[i])
  }

  predicate AllDigits(s: string) {
    forall i | 0 <= i < |s| :: IsDigit(s[i])
  }

  function DigitValue(c: char): nat
    requires IsDigit(c)
  {
    c as int - '0' as int
  }

  /** The alphabet, spelled out. */
  lemma Alphabet(c: char)
    ensures IsWhitespace(c) <==> c in " \t\r\n"
    ensures IsSeparator(c) <==> c in ".,"
    ensures IsDigit(c) <==> c in "0123456789"
    ensures IsDigit(c) ==> DigitValue(c) < 10 && "0123456789"[DigitValue(c)] == c
  {
    assert "0123456789" == seq(10, i requires 0 <= i < 10 => ('0' as int + i) as char);
    if IsDigit(c) {
      assert "0123456789"[DigitValue(c)] == c;
    }
  }

  /** The number a run of decimal digits writes, however long. */
  function ValueOf(digits: string): nat
    requires AllDigits(digits)
  {
    if digits == "" then 0 else 10 * ValueOf(digits[..|digits| - 1]) + DigitValue(digits[|digits| - 1])
  }

  /** The text is the given numbers in decimal, separated by commas or dots, with any whitespace around each. */
  ghost predicate Spells(text: string, parts: seq<UInt16>)
    decreases |parts|
  {
    parts != [] && exists before, digits, after, rest :: PartOf(text, before, digits, after, rest, parts)
  }

  ghost predicate PartOf(text: string, before: string, digits: string, after: string, rest: string, parts: seq<UInt16>)
    requires parts != []
    decreases |parts|, 0
  {
    && text == before + digits + after + rest
    && AllWhitespace(before) && AllWhitespace(after)
    && digits != "" && AllDigits(digits) && ValueOf(digits) == parts[0]
    && if |parts| == 1 then rest == "" else rest != "" && IsSeparator(rest[0]) && Spells(rest[1..], parts[1..])
  }

  // ---- A functional parser ----

  function DropWhitespace(s: string): (rest: string)
    ensures |rest| <= |s|
  {
    if s == "" || !IsWhitespace(s[0]) then s else DropWhitespace(s[1..])
  }

  function TakeDigits(s: string): (digits: string)
    ensures |digits| <= |s| && AllDigits(digits)
  {
    if s == "" || !IsDigit(s[0]) then "" else [s[0]] + TakeDigits(s[1..])
  }

  /** The first number of a text and what follows it and its whitespace. */
  function FirstPart(text: string): Option<(UInt16, string)> {
    var trimmed := DropWhitespace(text);
    var digits := TakeDigits(trimmed);
    if digits == "" || ValueOf(digits) > 65535 then None
    else Some((ValueOf(digits), DropWhitespace(trimmed[|digits|..])))
  }

  function ParseParts(text: string, n: nat): Option<seq<UInt16>>
    requires n > 0
    decreases n
  {
    match FirstPart(text)
    case None => None
    case Some((value, rest)) =>
      if n == 1 then (if rest == "" then Some([value]) else None)
      else if rest == "" || !IsSeparator(rest[0]) then None
      else Prepend([value], ParseParts(rest[1..], n - 1))
  }

  function Prepend(parts: seq<UInt16>, rest: Option<seq<UInt16>>): Option<seq<UInt16>> {
    match rest
    case None => None
    case Some(more) => Some(parts + more)
  }

  /** What is dropped is whitespace, and what is left starts with none. */
  lemma {:induction false} DropSplits(s: string) returns (blank: string)
    ensures s == blank + DropWhitespace(s) && AllWhitespace(blank)
    ensures DropWhitespace(s) == "" || !IsWhitespace(DropWhitespace(s)[0])
  {
    blank := "";
    if s != "" && IsWhitespace(s[0]) {
      var more := DropSplits(s[1..]);
      blank := [s[0]] + more;
    }
  }

  /** What is taken is digits, and what follows starts with none. */
  lemma {:induction false} TakeSplits(s: string)
    ensures var n := |TakeDigits(s)|;
            s == TakeDigits(s) + s[n..] && (n < |s| ==> !IsDigit(s[n]))
  {
    if s != "" && IsDigit(s[0]) {
      TakeSplits(s[1..]);
      assert s[1..][|TakeDigits(s)| - 1..] == s[|TakeDigits(s)|..];
    }
  }

  lemma {:induction false} DropsExactly(blank: string, s: string)
    requires AllWhitespace(blank) && (s == "" || !IsWhitespace(s[0]))
    ensures DropWhitespace(blank + s) == s
  {
    if blank == "" {
      assert blank + s == s;
    } else {
      assert (blank + s)[1..] == blank[1..] + s;
      DropsExactly(blank[1..], s);
    }
  }

  lemma {:induction false} TakesExactly(digits: string, s: string)
    requires AllDigits(digits) && (s == "" || !IsDigit(s[0]))
    ensures TakeDigits(digits + s) == digits
  {
    if digits == "" {
      assert digits + s == s;
    } else {
      assert (digits + s)[1..] == digits[1..] + s;
      TakesExactly(digits[1..], s);
    }
  }

  predicate Splits(text: string, before: string, digits: string, after: string, rest: string) {
    && text == before + digits + after + rest
    && AllWhitespace(before) && AllWhitespace(after) && digits != "" && AllDigits(digits)
  }

  lemma FirstPartOf(text: string, before: string, digits: string, after: string, rest: string)
    requires Splits(text, before, digits, after, rest) && ValueOf(digits) <= 65535
    requires rest == "" || IsSeparator(rest[0])
    ensures FirstPart(text) == Some((ValueOf(digits), rest))
  {
    hide DropWhitespace, TakeDigits, ValueOf;
    assert text == before + (digits + (after + rest));
    DropsExactly(before, digits + (after + rest));
    TakesExactly(digits, after + rest);
    assert (digits + (after + rest))[|digits|..] == after + rest;
    DropsExactly(after, rest);
  }

  lemma FirstPartSplits(text: string) returns (before: string, digits: string, after: string)
    requires FirstPart(text).Some?
    ensures Splits(text, before, digits, after, FirstPart(text).value.1)
    ensures ValueOf(digits) == FirstPart(text).value.0
  {
    hide DropWhitespace, TakeDigits, ValueOf;
    var trimmed := DropWhitespace(text);
    digits := TakeDigits(trimmed);
    var tail := trimmed[|digits|..];
    before := DropSplits(text);
    TakeSplits(trimmed);
    after := DropSplits(tail);
    var rest := DropWhitespace(tail);
    assert before + (digits + (after + rest)) == before + digits + after + rest;
  }

  /** Every spelling is parsed, to the numbers it spells. */
  lemma {:induction false} SpellingsParse(text: string, parts: seq<UInt16>)
    requires Spells(text, parts)
    ensures ParseParts(text, |parts|) == Some(parts)
    decreases |parts|
  {
    hide FirstPart, ValueOf;
    var before, digits, after, rest :| PartOf(text, before, digits, after, rest, parts);
    FirstPartOf(text, before, digits, after, rest);
    if |parts| > 1 {
      SpellingsParse(rest[1..], parts[1..]);
      assert parts == [parts[0]] + parts[1..];
    } else {
      assert parts == [parts[0]];
    }
  }

  /** Whatever is parsed is spelled by the text. */
  lemma {:induction false} ParsedIsSpelled(text: string, n: nat)
    requires n > 0 && ParseParts(text, n).Some?
    ensures |ParseParts(text, n).value| == n && Spells(text, ParseParts(text, n).value)
    decreases n
  {
    hide FirstPart, ValueOf;
    var parts := ParseParts(text, n).value;
    var before, digits, after := FirstPartSplits(text);
    var rest := FirstPart(text).value.1;
    if n > 1 {
      ParsedIsSpelled(rest[1..], n - 1);
      assert parts[1..] == ParseParts(rest[1..], n - 1).value;
    }
    assert PartOf(text, before, digits, after, rest, parts);
  }

  // ---- The parser of the source ----

  lemma PrefixIsNoMore(digits: string, k: nat)
    requires AllDigits(digits) && k <= |digits|
    ensures ValueOf(digits[..k]) <= ValueOf(digits)
  {
    if k < |digits| {
      PrefixIsNoMore(digits[..|digits| - 1], k);
      assert digits[..|digits| - 1][..k] == digits[..k];
    } else {
      assert digits[..k] == digits;
    }
  }

  lemma DropStep(text: string, position: nat)
    requires position < |text| && IsWhitespace(text[position])
    ensures DropWhitespace(text[position..]) == DropWhitespace(text[position + 1..])
  {
    assert text[position..][1..] == text[position + 1..];
  }

  method SkipWhitespace(text: string, start: nat) returns (position: nat)
    requires start <= |text|
    ensures start <= position <= |text|
    ensures text[position..] == DropWhitespace(text[start..])
  {
    position := start;
    while position < |text| && IsWhitespace(text[position])
      invariant start <= position <= |text|
      invariant DropWhitespace(text[position..]) == DropWhitespace(text[start..])
    {
      DropStep(text, position);
      position := position + 1;
    }
  }

  /** Accumulates in 32 bits, as the source does; giving up past 65535 keeps that from ever wrapping. */
  method ReadNumber(text: string, start: nat) returns (ok: bool, value: UInt16, position: nat)
    requires start <= |text|
    ensures var digits := TakeDigits(text[start..]);
            && (ok <==> ValueOf(digits) <= 65535)
            && (ok ==> value == ValueOf(digits) && position == start + |digits|)
  {
    ghost var digits := TakeDigits(text[start..]);
    TakeSplits(text[start..]);
    var accumulator: Word32 := 0;
    position := start;
    value := 0;
    while position < |text| && IsDigit(text[position])
      invariant start <= position <= start + |digits|
      invariant accumulator == ValueOf(digits[..position - start]) <= 65535
    {
      assert digits[..position - start + 1][..position - start] == digits[..position - start];
      accumulator := (accumulator * 10 + DigitValue(text[position])) % 0x1_0000_0000;
      if accumulator > 65535 {
        PrefixIsNoMore(digits, position - start + 1);
        ok := false;
        return;
      }
      position := position + 1;
    }
    assert digits[..position - start] == digits;
    ok, value := true, accumulator;
  }

  /** One number with the whitespace around it. */
  method ReadPart(text: string, start: nat) returns (ok: bool, value: UInt16, next: nat)
    requires start <= |text|
    ensures ok <==> FirstPart(text[start..]).Some?
    ensures ok ==> next <= |text| && FirstPart(text[start..]) == Some((value, text[next..]))
  {
    hide DropWhitespace, TakeDigits, ValueOf;
    value, next := 0, start;
    var number := SkipWhitespace(text, start);
    TakeSplits(text[number..]);
    if number == |text| || !IsDigit(text[number]) {
      ok := false;
      return;
    }
    var end: nat;
    ok, value, end := ReadNumber(text, number);
    if ok {
      next := SkipWhitespace(text, end);
      assert text[number..][end - number..] == text[end..];
    }
  }

  /** Accepts exactly the texts that spell four 16-bit numbers, and then returns those numbers; otherwise it
      leaves the output as it was. */
  method ParseFourPartVersion(text: string, output: Version) returns (ok: bool, parsed: Version)
    ensures ok <==> exists parts: seq<UInt16> :: |parts| == 4 && Spells(text, parts)
    ensures ok ==> Spells(text, [parsed.major, parsed.minor, parsed.patch, parsed.build])
    ensures !ok ==> parsed == output
  {
    hide FirstPart, Spells;
    var parts: seq<UInt16> := [];
    var position: nat := 0;
    ok, parsed := false, output;
    forall wanted: seq<UInt16> | |wanted| == 4 && Spells(text, wanted)
      ensures ParseParts(text, 4) == Some(wanted)
    {
      SpellingsParse(text, wanted);
    }
    PrependLaws([], 0, ParseParts(text, 4));
    assert text[0..] == text;
    for index := 0 to 4
      invariant position <= |text| && |parts| == index
      invariant index < 4 ==> ParseParts(text, 4) == Prepend(parts, ParseParts(text[position..], 4 - index))
      invariant index == 4 ==> ParseParts(text, 4) == if position == |text| then Some(parts) else None
      invariant index == 4 ==> position == |text| || !IsWhitespace(text[position])
    {
      var read, value, next := ReadPart(text, position);
      if !read {
        return;
      }
      if index + 1 < 4 {
        if next == |text| || !IsSeparator(text[next]) {
          return;
        }
        assert text[next..][1..] == text[next + 1..];
        PrependLaws(parts, value, ParseParts(text[next + 1..], 3 - index));
        position := next + 1;
      } else {
        FirstPartEnds(text[position..]);
        PrependLaws(parts, value, Some([]));
        position := next;
      }
      parts := parts + [value];
    }
    position := SkipWhitespace(text, position);
    if position != |text| {
      return;
    }
    ParsedIsSpelled(text, 4);
    ok, parsed := true, Version(parts[0], parts[1], parts[2], parts[3]);
    assert parts == [parts[0], parts[1], parts[2], parts[3]];
  }

  lemma PrependLaws(parts: seq<UInt16>, value: UInt16, rest: Option<seq<UInt16>>)
    ensures Prepend([], rest) == rest
    ensures Prepend(parts, Prepend([value], rest)) == Prepend(parts + [value], rest)
  {
    if rest.Some? {
      assert [] + rest.value == rest.value;
      assert parts + ([value] + rest.value) == parts + [value] + rest.value;
    }
  }

  lemma FirstPartEnds(text: string)
    requires FirstPart(text).Some?
    ensures var rest := FirstPart(text).value.1; rest == "" || !IsWhitespace(rest[0])
  {
    var _ := DropSplits(DropWhitespace(text)[|TakeDigits(DropWhitespace(text))|..]);
  }

  // ---- Printing ----

  function Decimal(n: nat): (digits: string)
    ensures digits != "" && AllDigits(digits) && ValueOf(digits) == n
  {
    var last := [('0' as int + n % 10) as char];
    if n < 10 then last
    else
      assert (Decimal(n / 10) + last)[..|Decimal(n / 10)|] == Decimal(n / 10);
      Decimal(n / 10) + last
  }

  /** A layout: the whitespace around a number and the separator after it. */
  datatype Layout = Layout(before: string, after: string, separator: char)

  function Print(parts: seq<UInt16>, layouts: seq<Layout>): string
    requires |layouts| == |parts|
  {
    if parts == [] then ""
    else
      layouts[0].before + Decimal(parts[0]) + layouts[0].after
      + if |parts| == 1 then "" else [layouts[0].separator] + Print(parts[1..], layouts[1..])
  }

  predicate Legible(layout: Layout) {
    AllWhitespace(layout.before) && AllWhitespace(layout.after) && IsSeparator(layout.separator)
  }

  /** Printing numbers in any layout spells them, so the parser gives them back. */
  lemma {:induction false} PrintSpells(parts: seq<UInt16>, layouts: seq<Layout>)
    requires |layouts| == |parts| > 0 && forall k | 0 <= k < |layouts| :: Legible(layouts[k])
    ensures Spells(Print(parts, layouts), parts)
    ensures ParseParts(Print(parts, layouts), |parts|) == Some(parts)
    decreases |parts|
  {
    hide Decimal, ValueOf, ParseParts;
    var rest := if |parts| == 1 then "" else [layouts[0].separator] + Print(parts[1..], layouts[1..]);
    assert Legible(layouts[0]);
    if |parts| > 1 {
      PrintSpells(parts[1..], layouts[1..]);
      assert rest[1..] == Print(parts[1..], layouts[1..]);
    }
    assert PartOf(Print(parts, layouts), layouts[0].before, Decimal(parts[0]), layouts[0].after, rest, parts);
    SpellingsParse(Print(parts, layouts), parts);
  }

  /** A text spells at most one list of each length. */
  lemma SpellingIsUnambiguous(text: string, parts: seq<UInt16>, others: seq<UInt16>)
    requires Spells(text, parts) && Spells(text, others) && |parts| == |others|
    ensures parts == others
  {
    SpellingsParse(text, parts);
    SpellingsParse(text, others);
  }
}
