/** One line of training data (dataitem.rs): either five or six binary
    digits, or six reals `0.dddddd` of which only the 36 fractional digits
    are kept. */
module DataItems {
  import opened Common

  datatype DataItem = Binary(digits: string) | Real(fractions: string)

  datatype DataItemParseError = NotValidAscii | InvalidFormat

  /** Digits per real, and reals per line. */
  const RealDigitCount: nat := 6
  const RealCount: nat := 6

  /** Characters of one real `0.dddddd`. */
  const RealWidth: nat := 8

  /** `DataItem::as_str`. */
  function AsStr(item: DataItem): string {
    match item
    case Binary(s) => s
    case Real(s) => s
  }

  /** `DataItem::width`: the number of characters. */
  function Width(item: DataItem): (w: nat)
    ensures w == |AsStr(item)|
  {
    |AsStr(item)|
  }

  /** `DataItem::char_at`: the character at `index`, or nothing past the
      end. */
  function CharAt(item: DataItem, index: nat): (c: Option<char>)
    ensures c.Some? <==> index < Width(item)
    ensures c.Some? ==> c.value == AsStr(item)[index]
  {
    if index < |AsStr(item)| then Some(AsStr(item)[index]) else None
  }

  function IsBinary(item: DataItem): bool {
    item.Binary?
  }

  /** `DataItem::is_real`: exactly the items that are not binary. */
  function IsReal(item: DataItem): (b: bool)
    ensures b <==> !IsBinary(item)
  {
    item.Real?
  }

  predicate IsAscii(s: string) {
    forall i :: 0 <= i < |s| ==> s[i] as int < 128
  }

  predicate IsDigit(c: char) {
    '0' <= c <= '9'
  }

  /** `[01]{5,6}`. */
  predicate IsBinaryText(s: string) {
    5 <= |s| <= 6 && forall i :: 0 <= i < |s| ==> s[i] == '0' || s[i] == '1'
  }

  /** `0\.\d{6}`: one real. */
  predicate IsRealText(s: string) {
    && |s| == RealWidth
    && s[0] == '0' && s[1] == '.'
    && forall i :: 2 <= i < RealWidth ==> IsDigit(s[i])
  }

  /** `n` reals, each after the first preceded by one space. */
  predicate IsRealsText(s: string, n: nat)
    decreases n
  {
    if n == 0 then false
    else if n == 1 then IsRealText(s)
    else |s| > RealWidth && IsRealText(s[..RealWidth]) && s[RealWidth] == ' ' && IsRealsText(s[RealWidth + 1..], n - 1)
  }

  /** The fractional digits of `n` reals, concatenated. */
  function RealsDigits(s: string, n: nat): (d: string)
    requires IsRealsText(s, n)
    ensures |d| == RealDigitCount * n
    ensures forall i :: 0 <= i < |d| ==> IsDigit(d[i])
    decreases n
  {
    if n == 1 then s[2..RealWidth]
    else s[2..RealWidth] + RealsDigits(s[RealWidth + 1..], n - 1)
  }

  /** `DataItem::from_str`: the ASCII check comes first; then the line must
      match one of the two formats as a whole. */
  function FromStr(input: string): (r: Result<DataItem, DataItemParseError>)
    ensures r == Err(NotValidAscii) <==> !IsAscii(input)
    ensures r.Ok? ==> Wellformed(r.value)
  {
    if !IsAscii(input) then Err(NotValidAscii)
    else if IsBinaryText(input) then Ok(Binary(input))
    else if IsRealsText(input, RealCount) then Ok(Real(RealsDigits(input, RealCount)))
    else Err(InvalidFormat)
  }

  /** The items a parse can produce: binary text, or 36 digits. */
  predicate Wellformed(item: DataItem) {
    match item
    case Binary(s) => IsBinaryText(s)
    case Real(d) => |d| == RealDigitCount * RealCount && forall i :: 0 <= i < |d| ==> IsDigit(d[i])
  }

  /** A parsed item is 5 or 6 characters wide when binary and 36 when
      real. */
  lemma ParsedWidth(input: string)
    requires FromStr(input).Ok?
    ensures IsBinary(FromStr(input).value) ==> 5 <= Width(FromStr(input).value) <= 6
    ensures IsReal(FromStr(input).value) ==> Width(FromStr(input).value) == 36
  {
  }

  /** The line a well-formed item is read from: the binary digits
      themselves, or each group of six digits as `0.dddddd`, separated by
      spaces. */
  function Render(item: DataItem): (s: string)
    requires Wellformed(item)
  {
    match item
    case Binary(b) => b
    case Real(d) => RenderReals(d, RealCount)
  }

  function RenderReals(d: string, n: nat): (s: string)
    requires n >= 1 && |d| == RealDigitCount * n
    decreases n
  {
    if n == 1 then "0." + d
    else "0." + d[..RealDigitCount] + " " + RenderReals(d[RealDigitCount..], n - 1)
  }

  lemma {:induction false} RenderRealsParses(d: string, n: nat)
    requires n >= 1 && |d| == RealDigitCount * n
    requires forall i :: 0 <= i < |d| ==> IsDigit(d[i])
    ensures IsRealsText(RenderReals(d, n), n)
    ensures RealsDigits(RenderReals(d, n), n) == d
    ensures IsAscii(RenderReals(d, n))
    ensures |RenderReals(d, n)| == (RealWidth + 1) * n - 1
    decreases n
  {
    var s := RenderReals(d, n);
    if n == 1 {
      assert s[2..RealWidth] == d;
    } else {
      var rest := RenderReals(d[RealDigitCount..], n - 1);
      RenderRealsParses(d[RealDigitCount..], n - 1);
      assert s[..RealWidth] == "0." + d[..RealDigitCount];
      assert s[RealWidth + 1..] == rest;
      assert s[2..RealWidth] == d[..RealDigitCount];
      assert d == d[..RealDigitCount] + d[RealDigitCount..];
    }
  }

  lemma {:induction false} RealsTextRenders(s: string, n: nat)
    requires IsRealsText(s, n)
    ensures RenderReals(RealsDigits(s, n), n) == s
    ensures IsAscii(s)
    decreases n
  {
    if n == 1 {
      assert s == "0." + s[2..RealWidth];
    } else {
      RealsTextRenders(s[RealWidth + 1..], n - 1);
      var d := RealsDigits(s, n);
      assert d[..RealDigitCount] == s[2..RealWidth];
      assert d[RealDigitCount..] == RealsDigits(s[RealWidth + 1..], n - 1);
      assert s == "0." + s[2..RealWidth] + " " + s[RealWidth + 1..];
    }
  }

  /** Reals text is never binary text: it holds a dot. */
  lemma RealsTextNotBinary(s: string, n: nat)
    requires IsRealsText(s, n)
    ensures !IsBinaryText(s)
  {
    if n == 1 {
      assert s[1] == '.';
    } else {
      assert s[..RealWidth][1] == '.';
      assert s[1] == '.';
    }
  }

  /** Rendering then parsing gives the item back. */
  lemma ParseRender(item: DataItem)
    requires Wellformed(item)
    ensures FromStr(Render(item)) == Ok(item)
  {
    match item
    case Binary(b) =>
      assert IsAscii(b) by {
        forall i | 0 <= i < |b| ensures b[i] as int < 128 {
          assert b[i] == '0' || b[i] == '1';
        }
      }
    case Real(d) =>
      RenderRealsParses(d, RealCount);
      RealsTextNotBinary(Render(item), RealCount);
  }

  /** A line that parses is the rendering of what it parses to, so two lines
      that parse to the same item are the same line. */
  lemma RenderParse(input: string)
    requires FromStr(input).Ok?
    ensures Render(FromStr(input).value) == input
  {
    if !IsBinaryText(input) {
      RealsTextRenders(input, RealCount);
    }
  }

  /** The lines parsed by the unit tests of dataitem.rs. */
  lemma ParseBinaryExample()
    ensures FromStr("00000") == Ok(Binary("00000"))
  {
    assert IsBinaryText("00000");
  }

  lemma ParseInvalidExample()
    ensures FromStr("abc") == Err(InvalidFormat)
  {
    assert !IsBinaryText("abc");
    assert !IsRealsText("abc", RealCount);
  }

  lemma ParseNonAsciiExample()
    ensures FromStr("not_ascii\U{2764}") == Err(NotValidAscii)
  {
    assert "not_ascii\U{2764}"[9] as int >= 128;
  }
}
