/**
 * The colour formatter of the map component (src/App.tsx): the three pixel
 * bytes are rendered as `rgb(r, g, b)` and `rgbToHex` turns that string into
 * `#rrggbb` by
 *   1. deleting every character other than a decimal digit or a comma,
 *   2. splitting on commas,
 *   3. reading fields 0, 1 and 2 with `parseInt(_, 10)`,
 *   4. rendering each value with `toString(16)` and `padStart(2, "0")`,
 *   5. concatenating the three after `#`.
 */
module ColorHex {
  import opened Wrappers

  /* ---------------- characters ---------------- */

  /** `\d` in a JavaScript regular expression: an ASCII decimal digit. */
  predicate IsDigit(c: char) { '0' <= c <= '9' }

  /** The characters that survive `replace(/[^\d,]/g, "")`. */
  predicate IsKept(c: char) { IsDigit(c) || c == ',' }

  predicate AllDigits(s: string) { forall i :: 0 <= i < |s| ==> IsDigit(s[i]) }

  predicate AllKept(s: string) { forall i :: 0 <= i < |s| ==> IsKept(s[i]) }

  /** A lower-case hexadecimal digit, as produced by `toString(16)`. */
  predicate IsHexDigit(c: char) { '0' <= c <= '9' || 'a' <= c <= 'f' }

  predicate AllHexDigits(s: string) { forall i :: 0 <= i < |s| ==> IsHexDigit(s[i]) }

  /* ---------------- step 1: the filter ---------------- */

  /** `s.replace(/[^\d,]/g, "")`: keeps the digits and commas of `s`, in order. */
  function Filter(s: string): (r: string)
    ensures |r| <= |s|
    ensures AllKept(r)
    ensures AllKept(s) ==> r == s
    ensures (forall i :: 0 <= i < |s| ==> !IsKept(s[i])) ==> r == []
  {
    if s == [] then []
    else if IsKept(s[0]) then [s[0]] + Filter(s[1..])
    else Filter(s[1..])
  }

  /** The filter works character by character: it distributes over concatenation. */
  lemma {:induction false} FilterAppend(a: string, b: string)
    ensures Filter(a + b) == Filter(a) + Filter(b)
  {
    if a == [] {
      assert a + b == b;
    } else {
      assert (a + b)[0] == a[0];
      assert (a + b)[1..] == a[1..] + b;
      FilterAppend(a[1..], b);
      if IsKept(a[0]) {
        assert Filter(a + b) == [a[0]] + (Filter(a[1..]) + Filter(b));
      }
    }
  }

  /** Every digit and comma of the input is kept, as often as it occurs; nothing else is. */
  lemma {:induction false} FilterCounts(s: string, c: char)
    ensures IsKept(c) ==> multiset(Filter(s))[c] == multiset(s)[c]
    ensures !IsKept(c) ==> c !in Filter(s)
  {
    if s != [] {
      FilterCounts(s[1..], c);
      assert s == [s[0]] + s[1..];
      assert multiset(s) == multiset([s[0]]) + multiset(s[1..]);
      if IsKept(s[0]) {
        assert multiset(Filter(s)) == multiset([s[0]]) + multiset(Filter(s[1..]));
      }
    }
  }

  /* ---------------- step 2: the comma split ---------------- */

  /**
   * `s.split(",")`: one field more than there are commas; the empty string
   * gives the single empty field `[""]`.
   */
  function Split(s: string): (fields: seq<string>)
    ensures |fields| >= 1
    ensures forall k :: 0 <= k < |fields| ==> ',' !in fields[k]
    ensures AllKept(s) ==> forall k :: 0 <= k < |fields| ==> AllDigits(fields[k])
  {
    if s == [] then [[]]
    else
      var rest := Split(s[1..]);
      if s[0] == ',' then [[]] + rest
      else [[s[0]] + rest[0]] + rest[1..]
  }

  /** `fields.join(",")`: the inverse of Split. */
  function Join(fields: seq<string>): string
    requires |fields| >= 1
  {
    if |fields| == 1 then fields[0] else fields[0] + [','] + Join(fields[1..])
  }

  /** Splitting loses nothing: joining the fields with commas gives the input back. */
  lemma {:induction false} JoinSplit(s: string)
    ensures Join(Split(s)) == s
  {
    if s != [] {
      var rest := Split(s[1..]);
      JoinSplit(s[1..]);
      if s[0] == ',' {
        assert ([[]] + rest)[1..] == rest;
      } else if |rest| > 1 {
        var fields := Split(s);
        assert fields[1..] == rest[1..];
        assert Join(rest) == rest[0] + [','] + Join(rest[1..]);
      }
    }
  }

  /** A comma-free prefix is glued onto the first field of what follows it. */
  lemma {:induction false} SplitPrefix(a: string, t: string)
    requires ',' !in a
    ensures Split(a + t) == [a + Split(t)[0]] + Split(t)[1..]
  {
    if a == [] {
      assert a + t == t;
      assert a + Split(t)[0] == Split(t)[0];
      assert [Split(t)[0]] + Split(t)[1..] == Split(t);
    } else {
      assert (a + t)[0] == a[0];
      assert (a + t)[1..] == a[1..] + t;
      SplitPrefix(a[1..], t);
      var rest := Split(a[1..] + t);
      assert rest[0] == a[1..] + Split(t)[0];
      assert rest[1..] == Split(t)[1..];
      assert [a[0]] + (a[1..] + Split(t)[0]) == a + Split(t)[0];
    }
  }

  /** Comma-free fields joined with commas split back into the same fields. */
  lemma {:induction false} SplitJoin(fields: seq<string>)
    requires |fields| >= 1
    requires forall k :: 0 <= k < |fields| ==> ',' !in fields[k]
    ensures Split(Join(fields)) == fields
  {
    if |fields| == 1 {
      SplitPrefix(fields[0], []);
      assert fields[0] + [] == fields[0];
    } else {
      var tail := Join(fields[1..]);
      SplitJoin(fields[1..]);
      assert fields[0] + [','] + tail == fields[0] + ([','] + tail);
      SplitPrefix(fields[0], [','] + tail);
      assert ([','] + tail)[1..] == tail;
      assert fields[0] + [] == fields[0];
    }
  }

  /** `hex[i]`: the i-th field, or `undefined` past the end of the array. */
  function FieldAt(fields: seq<string>, i: nat): (f: Option<string>)
    ensures f.Some? <==> i < |fields|
    ensures f.Some? ==> f.value == fields[i]
  {
    if i < |fields| then Some(fields[i]) else None
  }

  /* ---------------- step 3: decimal numbers ---------------- */

  function DigitChar(d: nat): (c: char)
    requires d < 10
    ensures IsDigit(c)
  {
    (('0' as int) + d) as char
  }

  function DigitValue(c: char): (d: nat)
    requires IsDigit(c)
    ensures d < 10 && DigitChar(d) == c
  {
    (c as int) - ('0' as int)
  }

  /** The value of a string of decimal digits, most significant first. */
  function DigitsValue(s: string): nat
    requires AllDigits(s)
  {
    if s == [] then 0 else DigitsValue(s[..|s| - 1]) * 10 + DigitValue(s[|s| - 1])
  }

  /** `${n}`: a non-negative integer in decimal, without leading zeros. */
  function Decimal(n: nat): (s: string)
    ensures |s| >= 1 && AllDigits(s)
    ensures n > 0 ==> s[0] != '0'
    ensures s[0] == '0' ==> s == "0"
  {
    if n < 10 then [DigitChar(n)] else Decimal(n / 10) + [DigitChar(n % 10)]
  }

  /**
   * `parseInt(s, 10)` on a string of decimal digits (the only strings this
   * formatter hands it): `NaN`, written None, exactly when the string is empty.
   */
  function ParseInt(s: string): (r: Option<nat>)
    requires AllDigits(s)
    ensures r.None? <==> s == []
  {
    if s == [] then None else Some(DigitsValue(s))
  }

  /** `parseInt(hex[i], 10)`: `parseInt(undefined, 10)` is `NaN` as well. */
  function ParseField(f: Option<string>): (r: Option<nat>)
    requires f.Some? ==> AllDigits(f.value)
    ensures r.Some? <==> f.Some? && f.value != []
  {
    match f
    case None => None
    case Some(s) => ParseInt(s)
  }

  /** Reading back the decimal rendering of a number gives the number. */
  lemma {:induction false} DecimalRoundTrip(n: nat)
    ensures DigitsValue(Decimal(n)) == n
    ensures ParseInt(Decimal(n)) == Some(n)
  {
    if n >= 10 {
      DecimalRoundTrip(n / 10);
      var s := Decimal(n);
      assert s[..|s| - 1] == Decimal(n / 10);
    }
  }

  /* ---------------- step 4: hexadecimal rendering ---------------- */

  function HexDigit(d: nat): (c: char)
    requires d < 16
    ensures IsHexDigit(c)
  {
    if d < 10 then (('0' as int) + d) as char else (('a' as int) + d - 10) as char
  }

  function HexDigitValue(c: char): (d: nat)
    requires IsHexDigit(c)
    ensures d < 16 && HexDigit(d) == c
  {
    if c <= '9' then (c as int) - ('0' as int) else (c as int) - ('a' as int) + 10
  }

  /** The value of a string of hexadecimal digits, most significant first. */
  function HexValue(s: string): nat
    requires AllHexDigits(s)
  {
    if s == [] then 0 else HexValue(s[..|s| - 1]) * 16 + HexDigitValue(s[|s| - 1])
  }

  /** `n.toString(16)`: lower-case hexadecimal without leading zeros. */
  function ToHex(n: nat): (s: string)
    ensures |s| >= 1 && AllHexDigits(s)
    ensures n > 0 ==> s[0] != '0'
  {
    if n < 16 then [HexDigit(n)] else ToHex(n / 16) + [HexDigit(n % 16)]
  }

  /** One hexadecimal digit exactly below 16, at most two exactly below 256. */
  lemma {:induction false} ToHexLength(n: nat)
    ensures |ToHex(n)| == 1 <==> n < 16
    ensures |ToHex(n)| <= 2 <==> n < 256
  {
    if n >= 16 {
      ToHexLength(n / 16);
    }
  }

  /** Reading back the hexadecimal rendering of a number gives the number. */
  lemma {:induction false} HexRoundTrip(n: nat)
    ensures HexValue(ToHex(n)) == n
  {
    if n >= 16 {
      HexRoundTrip(n / 16);
      var s := ToHex(n);
      assert s[..|s| - 1] == ToHex(n / 16);
    }
  }

  /** `Fill(k, c)`: k copies of the pad character c. */
  function Fill(k: nat, c: char): (z: string)
    ensures |z| == k && forall i :: 0 <= i < k ==> z[i] == c
  {
    seq(k, _ => c)
  }

  /**
   * `s.padStart(len, fill)` with a one-character fill: `s` unchanged when it
   * is already long enough, otherwise `s` behind as many fills as it lacks.
   */
  function PadStart(s: string, len: nat, fill: char): (r: string)
    ensures |r| == if |s| >= len then |s| else len
    ensures r[|r| - |s|..] == s
    ensures forall i :: 0 <= i < |r| - |s| ==> r[i] == fill
  {
    if |s| >= len then s else Fill(len - |s|, fill) + s
  }

  /** A leading zero does not change a hexadecimal value. */
  lemma {:induction false} HexLeadingZero(s: string)
    requires AllHexDigits(s)
    ensures AllHexDigits(['0'] + s) && HexValue(['0'] + s) == HexValue(s)
  {
    var t := ['0'] + s;
    if s != [] {
      HexLeadingZero(s[..|s| - 1]);
      assert t[..|t| - 1] == ['0'] + s[..|s| - 1];
    } else {
      assert t[..|t| - 1] == [];
    }
  }

  /** Any number of leading zeros does not change a hexadecimal value. */
  lemma {:induction false} HexLeadingZeros(k: nat, s: string)
    requires AllHexDigits(s)
    ensures AllHexDigits(Fill(k, '0') + s) && HexValue(Fill(k, '0') + s) == HexValue(s)
  {
    if k > 0 {
      HexLeadingZeros(k - 1, s);
      HexLeadingZero(Fill(k - 1, '0') + s);
      assert Fill(k, '0') == ['0'] + Fill(k - 1, '0');
      assert Fill(k, '0') + s == ['0'] + (Fill(k - 1, '0') + s);
    } else {
      assert Fill(k, '0') + s == s;
    }
  }

  /** `v.toString(16).padStart(2, "0")`: one colour channel. */
  function HexByte(v: nat): (h: string)
    ensures |h| >= 2 && AllHexDigits(h)
    ensures |h| == 2 <==> v < 256
  {
    ToHexLength(v);
    PadStart(ToHex(v), 2, '0')
  }

  /** The padded rendering of every value reads back as that value. */
  lemma HexByteRoundTrip(v: nat)
    ensures HexValue(HexByte(v)) == v
  {
    var s := ToHex(v);
    HexRoundTrip(v);
    if |s| < 2 {
      assert HexByte(v) == Fill(2 - |s|, '0') + s;
      HexLeadingZeros(2 - |s|, s);
    }
  }

  /** Distinct channel values never share a rendering. */
  lemma HexByteInjective(u: nat, v: nat)
    ensures HexByte(u) == HexByte(v) ==> u == v
  {
    HexByteRoundTrip(u);
    HexByteRoundTrip(v);
  }

  /**
   * For a byte the rendering is exactly its two hexadecimal digits, high
   * nibble first; below 16 that is "0" followed by one digit.
   */
  lemma HexBytePair(v: nat)
    requires v < 256
    ensures HexByte(v) == [HexDigit(v / 16), HexDigit(v % 16)]
    ensures v < 16 ==> HexByte(v) == ['0', HexDigit(v)]
  {
    if v < 16 {
      assert ToHex(v) == [HexDigit(v)];
      assert HexByte(v) == ['0'] + [HexDigit(v)];
    } else {
      assert ToHex(v / 16) == [HexDigit(v / 16)];
    }
  }

  /* ---------------- step 5: the whole formatter ---------------- */

  /**
   * One channel: `parseInt(hex[i], 10).toString(16).padStart(2, "0")`.
   * `NaN.toString(16)` is "NaN", already longer than the pad width.
   */
  function Channel(f: Option<string>): (h: string)
    requires f.Some? ==> AllDigits(f.value)
    ensures |h| >= 2
    ensures ParseField(f).None? <==> h == "NaN"
    ensures ParseField(f).Some? ==> AllHexDigits(h) && HexValue(h) == ParseField(f).value
  {
    match ParseField(f)
    case None => "NaN"
    case Some(v) => HexByteRoundTrip(v); HexByte(v)
  }

  /** `rgbToHex(rgb)` (src/App.tsx:12-18). */
  function RgbToHex(rgb: string): (hex: string)
    ensures |hex| >= 7 && hex[0] == '#'
  {
    var fields := Split(Filter(rgb));
    ['#'] + Channel(FieldAt(fields, 0)) + Channel(FieldAt(fields, 1)) + Channel(FieldAt(fields, 2))
  }

  /** A digit string is a comma-free field. */
  lemma DigitsHaveNoComma(x: string)
    requires AllDigits(x)
    ensures ',' !in x
  {
  }

  /** A non-empty digit field is parsed and rendered as its value. */
  lemma ChannelOfDigits(x: string)
    requires x != [] && AllDigits(x)
    ensures Channel(Some(x)) == HexByte(DigitsValue(x))
  {
  }

  /** Three fields joined with commas. */
  lemma JoinThree(x: string, y: string, z: string)
    ensures Join([x, y, z]) == x + [','] + y + [','] + z
  {
    var fields := [x, y, z];
    assert fields[1..] == [y, z];
    assert [y, z][1..] == [z];
    assert Join([y, z]) == y + [','] + z;
    assert Join(fields) == x + [','] + (y + [','] + z);
  }

  /**
   * Fields are read by position: when the filtered input is three digit
   * strings separated by commas, they become the red, green and blue pairs,
   * in that order.
   */
  lemma RgbToHexOfFields(s: string, x: string, y: string, z: string)
    requires x != [] && y != [] && z != []
    requires AllDigits(x) && AllDigits(y) && AllDigits(z)
    requires Filter(s) == x + [','] + y + [','] + z
    ensures RgbToHex(s)
         == ['#'] + HexByte(DigitsValue(x)) + HexByte(DigitsValue(y)) + HexByte(DigitsValue(z))
  {
    DigitsHaveNoComma(x);
    DigitsHaveNoComma(y);
    DigitsHaveNoComma(z);
    var fields := [x, y, z];
    JoinThree(x, y, z);
    SplitJoin(fields);
    var f := Split(Filter(s));
    assert f == fields;
    assert FieldAt(f, 0) == Some(x) && FieldAt(f, 1) == Some(y) && FieldAt(f, 2) == Some(z);
    ChannelOfDigits(x);
    ChannelOfDigits(y);
    ChannelOfDigits(z);
  }

  /**
   * Past the end of the field array `hex[i]` is `undefined`: with only two
   * fields the blue channel is "NaN".
   */
  lemma RgbToHexTwoFields(s: string, x: string, y: string)
    requires x != [] && y != [] && AllDigits(x) && AllDigits(y)
    requires Filter(s) == x + [','] + y
    ensures RgbToHex(s) == ['#'] + HexByte(DigitsValue(x)) + HexByte(DigitsValue(y)) + "NaN"
  {
    DigitsHaveNoComma(x);
    DigitsHaveNoComma(y);
    var fields := [x, y];
    assert fields[1..] == [y];
    assert Join(fields) == x + [','] + y;
    SplitJoin(fields);
    var f := Split(Filter(s));
    assert f == fields;
    assert FieldAt(f, 0) == Some(x) && FieldAt(f, 1) == Some(y) && FieldAt(f, 2) == None;
    ChannelOfDigits(x);
    ChannelOfDigits(y);
  }

  /** An integer in 0..255, one channel of a canvas pixel. */
  type Byte = v: nat | v < 256

  /** The template string `rgb(${r}, ${g}, ${b})` (src/App.tsx:39). */
  function FormatRgb(r: nat, g: nat, b: nat): (s: string)
    ensures |s| == 9 + |Decimal(r)| + |Decimal(g)| + |Decimal(b)|
    ensures s[..4] == "rgb(" && s[|s| - 1] == ')'
  {
    "rgb(" + Decimal(r) + ", " + Decimal(g) + ", " + Decimal(b) + ")"
  }

  /** The filter reduces the template string to the three decimals and their two commas. */
  lemma FilterFormatRgb(r: nat, g: nat, b: nat)
    ensures Filter(FormatRgb(r, g, b)) == Decimal(r) + [','] + Decimal(g) + [','] + Decimal(b)
  {
    var open, sep, close := "rgb(", ", ", ")";
    var x, y, z := Decimal(r), Decimal(g), Decimal(b);
    assert Filter(open) == [];
    assert Filter(sep) == [','];
    assert Filter(close) == [];
    assert Filter(x) == x && Filter(y) == y && Filter(z) == z;
    var s1 := open + x;
    FilterAppend(open, x);
    assert Filter(s1) == x;
    var s2 := s1 + sep;
    FilterAppend(s1, sep);
    var s3 := s2 + y;
    FilterAppend(s2, y);
    var s4 := s3 + sep;
    FilterAppend(s3, sep);
    var s5 := s4 + z;
    FilterAppend(s4, z);
    var s6 := s5 + close;
    FilterAppend(s5, close);
    assert Filter(s6) == x + [','] + y + [','] + z;
    assert s6 == FormatRgb(r, g, b);
  }

  /** The string built from three numbers is formatted channel by channel, in order. */
  lemma FormatRgbChannels(r: nat, g: nat, b: nat)
    ensures RgbToHex(FormatRgb(r, g, b)) == ['#'] + HexByte(r) + HexByte(g) + HexByte(b)
  {
    FilterFormatRgb(r, g, b);
    RgbToHexOfFields(FormatRgb(r, g, b), Decimal(r), Decimal(g), Decimal(b));
    DecimalRoundTrip(r);
    DecimalRoundTrip(g);
    DecimalRoundTrip(b);
  }

  /**
   * End to end: the string built from three bytes is formatted as `#`
   * followed by the two lower-case hexadecimal digits of red, green and blue.
   */
  lemma FormatRgbToHex(r: Byte, g: Byte, b: Byte)
    ensures RgbToHex(FormatRgb(r, g, b))
         == ['#', HexDigit(r / 16), HexDigit(r % 16),
                  HexDigit(g / 16), HexDigit(g % 16),
                  HexDigit(b / 16), HexDigit(b % 16)]
  {
    FormatRgbChannels(r, g, b);
    BytePairs(r, g, b);
  }

  /** Three byte renderings after `#` are the six nibble digits, high nibble first. */
  lemma BytePairs(r: Byte, g: Byte, b: Byte)
    ensures ['#'] + HexByte(r) + HexByte(g) + HexByte(b)
         == ['#', HexDigit(r / 16), HexDigit(r % 16),
                  HexDigit(g / 16), HexDigit(g % 16),
                  HexDigit(b / 16), HexDigit(b % 16)]
  {
    HexBytePair(r);
    HexBytePair(g);
    HexBytePair(b);
    Concat7(HexByte(r), HexByte(g), HexByte(b));
  }

  /** Concatenating three two-character strings after `#`. */
  lemma Concat7(x: string, y: string, z: string)
    requires |x| == 2 && |y| == 2 && |z| == 2
    ensures ['#'] + x + y + z == ['#', x[0], x[1], y[0], y[1], z[0], z[1]]
  {
  }

  /** A pixel as `getImageData(x, y, 1, 1).data` returns it: four bytes. */
  datatype Rgba = Rgba(r: Byte, g: Byte, b: Byte, a: Byte)

  /** The hex colour shown for a sampled pixel (src/App.tsx:37-40); alpha is ignored. */
  function PixelHex(p: Rgba): (hex: string)
    ensures |hex| == 7 && hex[0] == '#'
    ensures AllHexDigits(hex[1..3]) && HexValue(hex[1..3]) == p.r
    ensures AllHexDigits(hex[3..5]) && HexValue(hex[3..5]) == p.g
    ensures AllHexDigits(hex[5..7]) && HexValue(hex[5..7]) == p.b
  {
    FormatRgbChannels(p.r, p.g, p.b);
    ReadBack(p.r, p.g, p.b, RgbToHex(FormatRgb(p.r, p.g, p.b)));
    RgbToHex(FormatRgb(p.r, p.g, p.b))
  }

  /** Each two-digit pair of a formatted colour reads back as its channel. */
  lemma ReadBack(r: Byte, g: Byte, b: Byte, hex: string)
    requires hex == ['#'] + HexByte(r) + HexByte(g) + HexByte(b)
    ensures |hex| == 7
    ensures AllHexDigits(hex[1..3]) && HexValue(hex[1..3]) == r
    ensures AllHexDigits(hex[3..5]) && HexValue(hex[3..5]) == g
    ensures AllHexDigits(hex[5..7]) && HexValue(hex[5..7]) == b
  {
    Slices(HexByte(r), HexByte(g), HexByte(b));
    HexByteRoundTrip(r);
    HexByteRoundTrip(g);
    HexByteRoundTrip(b);
  }

  /** The three two-character pieces of a `#xxyyzz` string. */
  lemma Slices(x: string, y: string, z: string)
    requires |x| == 2 && |y| == 2 && |z| == 2
    ensures (['#'] + x + y + z)[1..3] == x
    ensures (['#'] + x + y + z)[3..5] == y
    ensures (['#'] + x + y + z)[5..7] == z
  {
  }

  /** A string without digits or commas formats every channel as NaN. */
  lemma NoDigitsGivesNaN(s: string)
    requires forall i :: 0 <= i < |s| ==> !IsKept(s[i])
    ensures RgbToHex(s) == "#NaNNaNNaN"
  {
  }

  /** The decimal renderings used in the worked example below. */
  lemma ExampleDecimals()
    ensures FormatRgb(255, 0, 16) == "rgb(255, 0, 16)"
  {
    assert Decimal(25) == "25";
    assert Decimal(255) == "255";
    assert Decimal(0) == "0";
    assert Decimal(16) == "16";
  }

  /** The worked example: `rgb(255, 0, 16)` keeps `255,0,16`. */
  lemma ExampleFilter()
    ensures Filter("rgb(255, 0, 16)") == "255,0,16"
  {
    ExampleDecimals();
    FilterFormatRgb(255, 0, 16);
    assert Decimal(255) == "255" && Decimal(0) == "0" && Decimal(16) == "16";
    assert "255" + [','] + "0" + [','] + "16" == "255,0,16";
  }

  /** `255,0,16` splits into its three fields. */
  lemma ExampleSplit()
    ensures Split("255,0,16") == ["255", "0", "16"]
  {
    JoinThree("255", "0", "16");
    assert "255" + [','] + "0" + [','] + "16" == "255,0,16";
    SplitJoin(["255", "0", "16"]);
  }

  /** The worked example formats as `#ff0010`. */
  lemma ExampleHex()
    ensures RgbToHex("rgb(255, 0, 16)") == "#ff0010"
  {
    ExampleDecimals();
    FormatRgbToHex(255, 0, 16);
  }
}
