/** The JSON text of one flat object in ASCII, character by character, and how long it is. */
module JsonTexts {
  import opened Models

  function DigitChar(i: nat): char
    requires i < 16
  {
    if i < 10 then (i + 48) as char else (i + 87) as char
  }

  function Hex4(n: nat): string
    requires n < 0x1_0000
  {
    [DigitChar(n / 0x1000), DigitChar(n / 0x100 % 16), DigitChar(n / 16 % 16), DigitChar(n % 16)]
  }

  /** One character inside a JSON string; beyond the first plane it is a surrogate pair. */
  function EscapedChar(c: char): string {
    if c == '"' then "\\\""
    else if c == '\\' then "\\\\"
    else if c == '\n' then "\\n"
    else if c == '\r' then "\\r"
    else if c == '\t' then "\\t"
    else if c == '\U{0008}' then "\\b"
    else if c == '\U{000C}' then "\\f"
    else if ' ' <= c <= '~' then [c]
    else if c as int < 0x1_0000 then "\\u" + Hex4(c as int)
    else
      var v := c as int - 0x1_0000;
      "\\u" + Hex4(0xD800 + v / 0x400) + "\\u" + Hex4(0xDC00 + v % 0x400)
  }

  function Escaped(s: string): string {
    if s == "" then "" else EscapedChar(s[0]) + Escaped(s[1..])
  }

  function Quoted(s: string): string { "\"" + Escaped(s) + "\"" }

  function QuotedList(items: seq<string>): string {
    if items == [] then ""
    else if |items| == 1 then Quoted(items[0])
    else Quoted(items[0]) + "," + QuotedList(items[1..])
  }

  function Decimal(n: int): string
    decreases if n < 0 then 1 - n else n
  {
    if n < 0 then "-" + Decimal(-n)
    else if n < 10 then [DigitChar(n)]
    else Decimal(n / 10) + [DigitChar(n % 10)]
  }

  /** A member's value: a text, a number or `null`, a list of texts, or JSON text as it is. */
  datatype Value = OfText(s: string) | OfNumber(n: Option<int>) | OfList(items: seq<string>) | Verbatim(text: string)

  function ValueText(v: Value): string {
    match v
    case OfText(s) => Quoted(s)
    case OfNumber(n) => if n.Some? then Decimal(n.value) else "null"
    case OfList(items) => "[" + QuotedList(items) + "]"
    case Verbatim(text) => text
  }

  /** Keys are identifiers, without anything to escape. */
  function Members(keys: seq<string>, values: seq<Value>): string
    requires |keys| == |values|
  {
    if keys == [] then ""
    else "\"" + keys[0] + "\":" + ValueText(values[0]) + (if |keys| == 1 then "" else ",") + Members(keys[1..], values[1..])
  }

  function ObjectText(keys: seq<string>, values: seq<Value>): string
    requires |keys| == |values|
  {
    "{" + Members(keys, values) + "}"
  }

  // ---------------------------------------------------------------------------
  // Numbers read back
  // ---------------------------------------------------------------------------

  function DigitValue(c: char): int {
    if '0' <= c <= '9' then c as int - '0' as int else if 'a' <= c <= 'f' then c as int - 'a' as int + 10 else -1
  }

  /** One digit more, to the right. */
  function Shifted(high: nat, hex: bool, d: nat): nat { if hex then high * 16 + d else high * 10 + d }

  /** The number that decimal or hexadecimal digits stand for, from the left; nothing if one is no digit. */
  function NumberIn(s: string, hex: bool): Option<nat> {
    if s == "" then Some(0)
    else
      var d := DigitValue(s[|s| - 1]);
      match NumberIn(s[..|s| - 1], hex)
      case Some(high) => if 0 <= d < (if hex then 16 else 10) then Some(Shifted(high, hex, d)) else None
      case None => None
  }

  lemma HexDigitIs(i: nat)
    requires i < 16
    ensures DigitValue(DigitChar(i)) == i
  {
  }

  lemma NumberAppend(s: string, i: nat, hex: bool)
    requires i < (if hex then 16 else 10) && NumberIn(s, hex).Some?
    ensures NumberIn(s + [DigitChar(i)], hex) == Some(Shifted(NumberIn(s, hex).value, hex, i))
  {
    assert (s + [DigitChar(i)])[..|s|] == s;
    HexDigitIs(i);
  }

  lemma {:induction false} DecimalReadsBack(n: nat)
    ensures NumberIn(Decimal(n), false) == Some(n) && (n > 0 ==> Decimal(n)[0] != '0') && Decimal(n) != ""
  {
    if n < 10 {
      NumberAppend("", n, false);
      assert "" + [DigitChar(n)] == [DigitChar(n)];
    } else {
      DecimalReadsBack(n / 10);
      NumberAppend(Decimal(n / 10), n % 10, false);
    }
  }

  lemma NegativeReadsBack(n: int)
    requires n < 0
    ensures Decimal(n)[..1] == "-" && NumberIn(Decimal(n)[1..], false) == Some(-n)
  {
    DecimalReadsBack(-n);
    MinusInFront(n);
    DropMinus(Decimal(-n));
  }

  lemma DropMinus(d: string)
    ensures ("-" + d)[..1] == "-" && ("-" + d)[1..] == d
  {
  }

  lemma MinusInFront(n: int)
    requires n < 0
    ensures Decimal(n) == "-" + Decimal(-n)
  {
  }

  /** Four digits of a number below 16 to the power of four. */
  lemma HexDigitsOf(n: nat)
    requires n < 0x1_0000
    ensures n == ((n / 0x1000 * 16 + n / 0x100 % 16) * 16 + n / 16 % 16) * 16 + n % 16
  {
    assert n / 0x100 == n / 0x1000 * 16 + n / 0x100 % 16 by {
      assert n / 0x100 / 16 == n / 0x1000;
    }
    assert n / 16 == n / 0x100 * 16 + n / 16 % 16 by {
      assert n / 16 / 16 == n / 0x100;
    }
  }

  lemma TwoHexDigits(s: string, a: nat, b: nat)
    requires a < 16 && b < 16 && NumberIn(s, true).Some?
    ensures NumberIn(s + [DigitChar(a), DigitChar(b)], true) == Some((NumberIn(s, true).value * 16 + a) * 16 + b)
  {
    NumberAppend(s, a, true);
    NumberAppend(s + [DigitChar(a)], b, true);
    assert s + [DigitChar(a)] + [DigitChar(b)] == s + [DigitChar(a), DigitChar(b)];
  }

  /** An escaped code unit is four digits that read back to it. */
  lemma HexReadsBack(n: nat)
    requires n < 0x1_0000
    ensures NumberIn(Hex4(n), true) == Some(n)
  {
    var a, b, c, d := n / 0x1000, n / 0x100 % 16, n / 16 % 16, n % 16;
    TwoHexDigits("", a, b);
    TwoHexDigits("" + [DigitChar(a), DigitChar(b)], c, d);
    assert Hex4(n) == "" + [DigitChar(a), DigitChar(b)] + [DigitChar(c), DigitChar(d)];
    HexDigitsOf(n);
  }

  // ---------------------------------------------------------------------------
  // Sizes
  // ---------------------------------------------------------------------------

  function EscapedSize(c: char): nat {
    if c in {'"', '\\', '\n', '\r', '\t', '\U{0008}', '\U{000C}'} then 2
    else if ' ' <= c <= '~' then 1
    else if c as int < 0x1_0000 then 6
    else 12
  }

  function TextSize(s: string): nat {
    if s == "" then 0 else EscapedSize(s[0]) + TextSize(s[1..])
  }

  /** Each item in quotes and followed by a comma. */
  function ListSize(items: seq<string>): nat {
    if items == [] then 0 else 3 + TextSize(items[0]) + ListSize(items[1..])
  }

  function ValueSize(v: Value): nat {
    match v
    case OfText(s) => 2 + TextSize(s)
    case OfNumber(n) => if n.Some? then |Decimal(n.value)| else 4
    case OfList(items) => if items == [] then 2 else 1 + ListSize(items)
    case Verbatim(text) => |text|
  }

  function ValueSizes(values: seq<Value>): nat {
    if values == [] then 0 else ValueSize(values[0]) + ValueSizes(values[1..])
  }

  /** Each key in quotes and with its colon and a comma. */
  function KeySizes(keys: seq<string>): nat {
    if keys == [] then 0 else 4 + |keys[0]| + KeySizes(keys[1..])
  }

  lemma {:induction false} KeySizesAppend(a: seq<string>, b: seq<string>)
    ensures KeySizes(a + b) == KeySizes(a) + KeySizes(b)
  {
    if a == [] {
      assert a + b == b;
    } else {
      assert (a + b)[1..] == a[1..] + b;
      KeySizesAppend(a[1..], b);
    }
  }

  lemma {:induction false} SizeOfText(s: string)
    ensures |Escaped(s)| == TextSize(s)
  {
    if s != "" {
      SizeOfText(s[1..]);
    }
  }

  lemma {:induction false} SizeOfList(items: seq<string>)
    ensures items != [] ==> |QuotedList(items)| == ListSize(items) - 1
  {
    if items != [] {
      SizeOfText(items[0]);
      SizeOfList(items[1..]);
    }
  }

  lemma SizeOfValue(v: Value)
    ensures |ValueText(v)| == ValueSize(v)
  {
    match v
    case OfText(s) => SizeOfText(s);
    case OfList(items) => SizeOfList(items);
    case _ =>
  }

  lemma {:induction false} SizeOfMembers(keys: seq<string>, values: seq<Value>)
    requires |keys| == |values|
    ensures keys != [] ==> |Members(keys, values)| == KeySizes(keys) + ValueSizes(values) - 1
  {
    if keys != [] {
      SizeOfValue(values[0]);
      SizeOfMembers(keys[1..], values[1..]);
    }
  }

  /** The text of an object is as long as its sizes say. */
  lemma SizeOfObject(keys: seq<string>, values: seq<Value>)
    requires |keys| == |values| && keys != []
    ensures |ObjectText(keys, values)| == 1 + KeySizes(keys) + ValueSizes(values)
  {
    SizeOfMembers(keys, values);
  }

  // ---------------------------------------------------------------------------
  // Bounds
  // ---------------------------------------------------------------------------

  lemma {:induction false} SizeIsBounded(s: string)
    ensures |s| <= TextSize(s) <= 12 * |s|
  {
    if s != "" {
      SizeIsBounded(s[1..]);
    }
  }

  /** How many characters a value has at least. */
  function Length(v: Value): nat {
    match v
    case OfText(s) => |s|
    case Verbatim(text) => |text|
    case _ => 0
  }

  lemma LengthIsNoMore(v: Value)
    ensures Length(v) <= ValueSize(v)
  {
    if v.OfText? {
      SizeIsBounded(v.s);
    }
  }

  /** Each value is no longer than all together. */
  lemma {:induction false} ValueIsNoLonger(values: seq<Value>, i: nat)
    requires i < |values|
    ensures Length(values[i]) <= ValueSizes(values)
  {
    LengthIsNoMore(values[0]);
    if i > 0 {
      ValueIsNoLonger(values[1..], i - 1);
    }
  }

  lemma {:induction false} TwoValuesAreNoLonger(values: seq<Value>, i: nat, j: nat)
    requires i < j < |values|
    ensures Length(values[i]) + Length(values[j]) <= ValueSizes(values)
  {
    LengthIsNoMore(values[0]);
    if i > 0 {
      TwoValuesAreNoLonger(values[1..], i - 1, j - 1);
    } else {
      ValueIsNoLonger(values[1..], j - 1);
    }
  }

  lemma TwoTextsAreNoLonger(values: seq<Value>, i: nat, j: nat, a: string, b: string)
    requires i < j < |values| && values[i] == OfText(a) && values[j] == OfText(b)
    ensures |a| + |b| <= ValueSizes(values)
  {
    TwoValuesAreNoLonger(values, i, j);
  }

  /** One value of any size among others of at most `n` bytes each. */
  lemma {:induction false} OneLargeValueFits(values: seq<Value>, large: nat, n: nat)
    requires large < |values| && forall i :: 0 <= i < |values| && i != large ==> ValueSize(values[i]) <= n
    ensures ValueSizes(values) <= ValueSize(values[large]) + (|values| - 1) * n
  {
    var rest := values[1..];
    assert (|rest| - 1) * n + n == |rest| * n;
    if large > 0 {
      OneLargeValueFits(rest, large - 1, n);
    } else {
      SmallValuesFit(rest, n);
    }
  }

  lemma {:induction false} SmallValuesFit(values: seq<Value>, n: nat)
    requires forall i :: 0 <= i < |values| ==> ValueSize(values[i]) <= n
    ensures ValueSizes(values) <= |values| * n
  {
    if values != [] {
      SmallValuesFit(values[1..], n);
      assert (|values| - 1) * n + n == |values| * n;
    }
  }
}
