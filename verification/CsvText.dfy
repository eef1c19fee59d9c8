/** The text primitives the Q-table file format rests on: `String.Split` on the
    separator characters, the interpolated "field, separator, space" layout the
    writers produce, whitespace trimming, and the .NET text forms of `bool` and
    `int` together with their parsers. Floating-point text is left abstract: a
    `FloatCodec` is any formatter/parser pair, and the round trips ask only that
    the texts of the values actually written read back. */
module CsvText {
  import opened Wrappers

  /** The characters `QTable.ReadFile` splits a line on. */
  const Separators: set<char> := {',', ';'}

  predicate NoSeparator(s: string) {
    forall c :: c in s ==> c !in Separators
  }

  /** No line break: the text stays on the line `ReadLine` returns. */
  predicate SingleLine(s: string) {
    forall c :: c in s ==> c != '\n' && c != '\r'
  }

  /** `String.Split(char[])`: every separator ends a field and empty fields are kept,
      so a string with k separators gives k + 1 fields. */
  function Split(s: string): (r: seq<string>)
    ensures |r| >= 1
    decreases |s|
  {
    if |s| == 0 then [""]
    else
      var rest := Split(s[1..]);
      if s[0] in Separators then [""] + rest
      else [[s[0]] + rest[0]] + rest[1..]
  }

  /** Every field followed by the separator, fields concatenated. */
  function Terminated(fields: seq<string>, sep: char): string
  {
    if |fields| == 0 then "" else fields[0] + [sep] + Terminated(fields[1..], sep)
  }

  /** Every field after the first gets a leading space. */
  function Spaced(fields: seq<string>): seq<string>
  {
    seq(|fields|, i requires 0 <= i < |fields| => if i == 0 then fields[i] else " " + fields[i])
  }

  /** The layout of `CSVGetData`: `f0<sep> f1<sep> ... fn<sep>`. */
  function Record(fields: seq<string>, sep: char): string
  {
    Terminated(Spaced(fields), sep)
  }

  lemma {:induction false} SplitAfterField(x: string, c: char, y: string)
    requires NoSeparator(x) && c in Separators
    ensures Split(x + [c] + y) == [x] + Split(y)
    decreases |x|
  {
    if |x| == 0 {
      assert x + [c] + y == [c] + y;
      assert ([c] + y)[1..] == y;
    } else {
      var s := x + [c] + y;
      assert s[1..] == x[1..] + [c] + y;
      SplitAfterField(x[1..], c, y);
      assert [x[0]] + x[1..] == x;
    }
  }

  /** Splitting a run of separator-terminated fields gives the fields back, plus the
      empty field after the last separator. */
  lemma {:induction false} SplitTerminated(fields: seq<string>, sep: char)
    requires sep in Separators
    requires forall i :: 0 <= i < |fields| ==> NoSeparator(fields[i])
    ensures Split(Terminated(fields, sep)) == fields + [""]
    decreases |fields|
  {
    if |fields| > 0 {
      SplitAfterField(fields[0], sep, Terminated(fields[1..], sep));
      SplitTerminated(fields[1..], sep);
      assert [fields[0]] + fields[1..] == fields;
    }
  }

  lemma {:induction false} TerminatedAppend(a: seq<string>, b: seq<string>, sep: char)
    ensures Terminated(a + b, sep) == Terminated(a, sep) + Terminated(b, sep)
    decreases |a|
  {
    if |a| > 0 {
      assert (a + b)[1..] == a[1..] + b;
      TerminatedAppend(a[1..], b, sep);
    } else {
      assert a + b == b;
    }
  }

  /** `$"{x} {y}"` of two records is the record of all their fields. */
  lemma RecordJoin(a: seq<string>, b: seq<string>, sep: char)
    requires |a| > 0 && |b| > 0
    ensures Record(a, sep) + " " + Record(b, sep) == Record(a + b, sep)
  {
    var sb := Spaced(b);
    var c := [" " + b[0]] + sb[1..];
    TerminatedLeadingSpace(sb, sep);
    SpacedAppend(a, b);
    TerminatedAppend(Spaced(a), c, sep);
  }

  /** A space before the first field is a space before the record. */
  lemma TerminatedLeadingSpace(fields: seq<string>, sep: char)
    requires |fields| > 0
    ensures Terminated([" " + fields[0]] + fields[1..], sep) == " " + Terminated(fields, sep)
  {
    var c := [" " + fields[0]] + fields[1..];
    assert c[0] == " " + fields[0] && c[1..] == fields[1..];
  }

  /** The fields of `b` keep their spaces behind those of `a`, and its first field
      gains one. */
  lemma SpacedAppend(a: seq<string>, b: seq<string>)
    requires |a| > 0 && |b| > 0
    ensures Spaced(a + b) == Spaced(a) + ([" " + b[0]] + Spaced(b)[1..])
  {
    var l := Spaced(a + b);
    var r := Spaced(a) + ([" " + b[0]] + Spaced(b)[1..]);
    assert |l| == |r|;
    forall i | 0 <= i < |l|
      ensures l[i] == r[i]
    {
      if i >= |a| {
        assert (a + b)[i] == b[i - |a|];
      }
    }
  }

  /** A record of single-line texts is a single line: the separators and the
      spaces the writer adds are no line breaks. */
  lemma {:induction false} RecordSingleLine(fields: seq<string>, sep: char)
    requires sep in Separators
    requires forall i :: 0 <= i < |fields| ==> SingleLine(fields[i])
    ensures SingleLine(Record(fields, sep))
  {
    var sf := Spaced(fields);
    forall i | 0 <= i < |sf|
      ensures SingleLine(sf[i])
    {
      assert SingleLine(fields[i]);
      assert forall c :: c in " " + fields[i] ==> c == ' ' || c in fields[i];
    }
    TerminatedSingleLine(sf, sep);
  }

  lemma {:induction false} TerminatedSingleLine(fields: seq<string>, sep: char)
    requires sep in Separators
    requires forall i :: 0 <= i < |fields| ==> SingleLine(fields[i])
    ensures SingleLine(Terminated(fields, sep))
    decreases |fields|
  {
    if |fields| > 0 {
      TerminatedSingleLine(fields[1..], sep);
      assert SingleLine(fields[0]);
      var rest := Terminated(fields[1..], sep);
      assert forall c :: c in fields[0] + [sep] + rest ==> c in fields[0] || c == sep || c in rest;
    }
  }

  /** A field as it appears after splitting a record: the text itself, or the text
      behind the space the writer puts after a separator. */
  predicate Shows(field: string, text: string) {
    field == text || field == " " + text
  }

  /** Field `i` of a split record shows text `i` of the record. */
  lemma SpacedShows(fields: seq<string>, i: nat)
    requires i < |fields|
    ensures Shows((Spaced(fields) + [""])[i], fields[i])
  {
    assert (Spaced(fields) + [""])[i] == Spaced(fields)[i];
  }

  lemma SpacedNoSeparator(fields: seq<string>)
    requires forall i :: 0 <= i < |fields| ==> NoSeparator(fields[i])
    ensures forall i :: 0 <= i < |Spaced(fields)| ==> NoSeparator(Spaced(fields)[i])
  {
    forall i | 0 <= i < |fields|
      ensures NoSeparator(Spaced(fields)[i])
    {
      if i > 0 {
        assert forall c :: c in " " + fields[i] ==> c == ' ' || c in fields[i];
      }
    }
  }

  /** The characters .NET number parsing accepts as surrounding white space. */
  predicate IsWhite(c: char) {
    c == ' ' || '\t' <= c <= '\r'
  }

  /** No white space at either end. */
  predicate Clean(s: string) {
    |s| == 0 || (!IsWhite(s[0]) && !IsWhite(s[|s| - 1]))
  }

  function TrimStart(s: string): string
    decreases |s|
  {
    if |s| > 0 && IsWhite(s[0]) then TrimStart(s[1..]) else s
  }

  function TrimEnd(s: string): string
    decreases |s|
  {
    if |s| > 0 && IsWhite(s[|s| - 1]) then TrimEnd(s[..|s| - 1]) else s
  }

  /** `String.Trim()` restricted to the white space above. */
  function Trim(s: string): string
  {
    TrimEnd(TrimStart(s))
  }

  lemma TrimClean(t: string)
    requires Clean(t)
    ensures Trim(t) == t
    ensures Trim(" " + t) == t
  {
    if |t| > 0 {
      assert (" " + t)[1..] == t;
    }
  }

  function Lower(c: char): char {
    if 'A' <= c <= 'Z' then (c as int + 32) as char else c
  }

  /** Ordinal case folding, restricted to ASCII letters. */
  function LowerText(s: string): (r: string)
    ensures |r| == |s|
  {
    seq(|s|, i requires 0 <= i < |s| => Lower(s[i]))
  }

  /** `bool.ToString()`. */
  function BoolText(b: bool): string {
    if b then "True" else "False"
  }

  /** `bool.Parse`: surrounding white space is ignored and the comparison with
      "True" and "False" ignores case; anything else is a format error. */
  function ParseBool(s: string): Option<bool> {
    var t := LowerText(Trim(s));
    if t == "true" then Some(true)
    else if t == "false" then Some(false)
    else None
  }

  lemma BoolTextShape(b: bool)
    ensures NoSeparator(BoolText(b)) && SingleLine(BoolText(b)) && Clean(BoolText(b))
  {
    var s := BoolText(b);
    assert forall k :: 0 <= k < |s| ==> 'A' <= s[k] <= 'u';
  }

  lemma LowerBoolText(b: bool)
    ensures LowerText(BoolText(b)) == if b then "true" else "false"
  {
    var l := LowerText(BoolText(b));
    if b {
      assert l[0] == 't' && l[1] == 'r' && l[2] == 'u' && l[3] == 'e';
    } else {
      assert l[0] == 'f' && l[1] == 'a' && l[2] == 'l' && l[3] == 's' && l[4] == 'e';
    }
  }

  /** The text `CSVGetData` writes for a flag parses back to it, with or without
      the space the writer puts before it. */
  lemma ParseBoolText(b: bool)
    ensures ParseBool(BoolText(b)) == Some(b)
    ensures ParseBool(" " + BoolText(b)) == Some(b)
  {
    BoolTextShape(b);
    TrimClean(BoolText(b));
    LowerBoolText(b);
  }

  /** The range of a C# `int`, the type behind every C# enum here. */
  type Int32 = i: int | -0x8000_0000 <= i < 0x8000_0000

  predicate IsDigit(c: char) {
    '0' <= c <= '9'
  }

  predicate AllDigits(s: string) {
    forall i :: 0 <= i < |s| ==> IsDigit(s[i])
  }

  function DigitChar(d: nat): char
    requires d < 10
  {
    ('0' as int + d) as char
  }

  /** The number a run of decimal digits denotes. */
  function DigitsValue(s: string): nat
    requires AllDigits(s)
  {
    if |s| == 0 then 0 else 10 * DigitsValue(s[..|s| - 1]) + (s[|s| - 1] as int - '0' as int)
  }

  /** Shortest decimal text of a natural number. */
  function NatText(n: nat): (r: string)
    ensures |r| >= 1 && AllDigits(r)
  {
    if n < 10 then [DigitChar(n)] else NatText(n / 10) + [DigitChar(n % 10)]
  }

  /** `int.ToString()` with "-" as the negative sign. */
  function IntText(i: int): string {
    if i < 0 then "-" + NatText(-i) else NatText(i)
  }

  /** `int.Parse` with the default integer style: surrounding white space, an optional
      leading sign, at least one digit; a value outside `Int32` overflows. Every
      failure is `None`. */
  function ParseInt32(s: string): Option<Int32> {
    var t := Trim(s);
    if |t| > 0 && (t[0] == '-' || t[0] == '+') then
      ParseDigits(t[1..], t[0] == '-')
    else
      ParseDigits(t, false)
  }

  /** The unsigned part of `int.Parse`, negated when a minus sign preceded it. */
  function ParseDigits(digits: string, negative: bool): Option<Int32> {
    if |digits| == 0 || !AllDigits(digits) then None
    else
      var v: int := if negative then -(DigitsValue(digits) as int) else DigitsValue(digits);
      if -0x8000_0000 <= v < 0x8000_0000 then Some(v) else None
  }

  lemma {:induction false} DigitsValueNatText(n: nat)
    ensures DigitsValue(NatText(n)) == n
  {
    if n >= 10 {
      var s := NatText(n);
      assert s[..|s| - 1] == NatText(n / 10);
      DigitsValueNatText(n / 10);
    }
  }

  lemma IntTextShape(i: int)
    ensures NoSeparator(IntText(i)) && SingleLine(IntText(i)) && Clean(IntText(i))
  {
    var s := IntText(i);
    assert forall k :: 0 <= k < |s| ==> s[k] == '-' || IsDigit(s[k]);
  }

  /** The digits `NatText` writes read back as the number, with the sign applied,
      whenever the signed value is an `Int32`. */
  lemma ParseDigitsNatText(n: nat, negative: bool)
    requires if negative then n <= 0x8000_0000 else n < 0x8000_0000
    ensures ParseDigits(NatText(n), negative) == Some(if negative then -(n as int) else n)
  {
    DigitsValueNatText(n);
  }

  /** `int.Parse` sees only the trimmed text. */
  lemma ParseInt32Trimmed(a: string, b: string)
    requires Trim(a) == Trim(b)
    ensures ParseInt32(a) == ParseInt32(b)
  {
  }

  /** The distance ordinal written by `CSVGetData` parses back to itself. */
  lemma ParseIntText(i: Int32)
    ensures ParseInt32(IntText(i)) == Some(i)
    ensures ParseInt32(" " + IntText(i)) == Some(i)
  {
    IntTextShape(i);
    TrimClean(IntText(i));
    if i < 0 {
      var n: nat := -(i as int);
      ParseDigitsNatText(n, true);
      assert ("-" + NatText(n))[1..] == NatText(n);
    } else {
      ParseDigitsNatText(i, false);
    }
    ParseInt32Trimmed(" " + IntText(i), IntText(i));
  }

  /** Culture-dependent `float` text: `format` stands for `float.ToString()` and
      `parse` for `float.Parse` of the trimmed text. */
  datatype FloatCodec = FloatCodec(format: real -> string, parse: string -> Option<real>)

  /** What the file format needs of the text of one float value: no separator (no
      decimal comma), no line break, no white space at its ends, and it parses
      back to the value exactly. */
  predicate RoundTrips(codec: FloatCodec, x: real) {
    && NoSeparator(codec.format(x))
    && SingleLine(codec.format(x))
    && Clean(codec.format(x))
    && codec.parse(codec.format(x)) == Some(x)
  }

  /** A float text format for whole numbers: the `int` text of the value. */
  const WholeCodec: FloatCodec :=
    FloatCodec((x: real) => IntText(x.Floor), (s: string) => match ParseInt32(s) case Some(i) => Some(i as real) case None => None)

  /** The round-trip requirement can be met: every whole number in the range of
      an `int` round-trips through `WholeCodec`. */
  lemma WholeNumbersRoundTrip(x: real)
    requires x == x.Floor as real && -0x8000_0000 <= x.Floor < 0x8000_0000
    ensures RoundTrips(WholeCodec, x)
  {
    IntTextShape(x.Floor);
    ParseIntText(x.Floor);
  }

  /** `float.Parse`: white space around the number is allowed. */
  function ParseFloat(codec: FloatCodec, s: string): Option<real> {
    codec.parse(Trim(s))
  }

  /** The text `CSVGetData` writes for a float parses back to it behind the
      writer's space, whenever that value's text round-trips. */
  lemma ParseFloatText(codec: FloatCodec, x: real)
    requires RoundTrips(codec, x)
    ensures ParseFloat(codec, " " + codec.format(x)) == Some(x)
  {
    TrimClean(codec.format(x));
  }
}
