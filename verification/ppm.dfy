/**
 The plain PPM (P3) encoder (src/canvas/to_ppm.rs): the header, the conversion of each colour
 channel to a byte, and the loop that lays the channel values out as text, starting a new
 line for every image row and whenever a value would push a line past 70 characters.
 */
module Ppm {
  import opened Colors
  import opened Canvases
  import opened Text

  /** The longest line the encoder writes. */
  const MaxLineLength: nat := 70

  /** The largest channel value, written in the header. */
  const MaxValue: nat := 255

  // ---------------------------------------------------------------------------------------
  // `create_ppm_header`

  /** `P3`, the width and height, and the largest channel value, each on its own line. */
  function Header(width: nat, height: nat): (h: string)
    ensures |h| > 3 && h[..3] == "P3\n" && h[|h| - 1] == '\n'
  {
    "P3\n" + (NatToString(width) + (" " + (NatToString(height) + ("\n" + (NatToString(MaxValue) + "\n")))))
  }

  /** A PPM reader sees the magic number, the two dimensions and the maximum value, in that order. */
  lemma HeaderWords(width: nat, height: nat)
    ensures Words(Header(width, height))
      == ["P3", NatToString(width), NatToString(height), NatToString(MaxValue)]
  {
    var w, h, m := NatToString(width), NatToString(height), NatToString(MaxValue);
    DigitsHaveNoSpaces(w);
    DigitsHaveNoSpaces(h);
    DigitsHaveNoSpaces(m);
    FieldWords("P3", w, h, m);
    var rest := w + (" " + (h + ("\n" + (m + "\n"))));
    assert "P3\n" + rest == "P3" + ("\n" + rest);
  }

  /** Four fields laid out as `a\nb c\nd\n` read back as those four words. */
  lemma FieldWords(a: string, b: string, c: string, d: string)
    requires |a| > 0 && |b| > 0 && |c| > 0 && |d| > 0
    requires NoSpaces(a) && NoSpaces(b) && NoSpaces(c) && NoSpaces(d)
    ensures Words(a + ("\n" + (b + (" " + (c + ("\n" + (d + "\n"))))))) == [a, b, c, d]
  {
    var t1 := "\n" + (d + "\n");
    assert Words(d + "\n") == [d] by {
      WordsHead(d, "\n");
      assert Words("\n") == Words("");
    }
    assert Words(t1) == [d] by { WordsSkipSpaces("\n", d + "\n"); }
    var t2 := " " + (c + t1);
    assert Words(t2) == [c, d] by { WordsHead(c, t1); WordsSkipSpaces(" ", c + t1); }
    var t3 := "\n" + (b + t2);
    assert Words(t3) == [b, c, d] by { WordsHead(b, t2); WordsSkipSpaces("\n", b + t2); }
    WordsHead(a, t3);
  }

  lemma DigitsHaveNoSpaces(s: string)
    requires AllDigits(s)
    ensures NoSpaces(s)
  {
  }

  /** The header of the source's 5 x 3 canvas. */
  lemma HeaderExample(width: nat, height: nat)
    requires width == 5 && height == 3
    ensures Header(width, height) == "P3\n5 3\n255\n"
  {
    assert NatToString(25) == "25";
    assert NatToString(MaxValue) == "255";
  }

  // ---------------------------------------------------------------------------------------
  // From a channel to a byte

  /** `f64::round`: to the nearest integer, halfway cases away from zero. */
  function Round(x: real): (r: int)
    ensures x - 0.5 <= r as real <= x + 0.5
    ensures r as real == x + 0.5 ==> x >= 0.0
    ensures r as real == x - 0.5 ==> x < 0.0
  {
    if x >= 0.0 then (x + 0.5).Floor else -((-x + 0.5).Floor)
  }

  /** `as u8` from a float: Rust saturates at the ends of the byte range. */
  function SaturatingByte(v: int): (b: nat)
    ensures b <= MaxValue
    ensures 0 <= v <= MaxValue ==> b == v
  {
    if v < 0 then 0 else if v > MaxValue then MaxValue else v
  }

  /**
   A channel clamped to [0, 1], scaled to 0..255 and rounded: the byte is within half a
   step of the exact scaled value.
   */
  function ChannelByte(v: real): (b: nat)
    ensures b <= MaxValue
    ensures var exact := ClampChannel(v, 0.0, 1.0) * 255.0;
      exact - 0.5 <= b as real <= exact + 0.5
  {
    SaturatingByte(Round(ClampChannel(v, 0.0, 1.0) * 255.0))
  }

  /** A brighter channel never gets a smaller byte. */
  lemma ChannelByteMonotone(u: real, v: real)
    requires u <= v
    ensures ChannelByte(u) <= ChannelByte(v)
  {
    var cu, cv := ClampChannel(u, 0.0, 1.0) * 255.0, ClampChannel(v, 0.0, 1.0) * 255.0;
    assert cu <= cv;
    assert (cu + 0.5).Floor <= (cv + 0.5).Floor;
  }

  /** Everything at or below 0 is 0, everything at or above 1 is 255. */
  lemma ChannelByteSaturates(v: real)
    ensures v <= 0.0 ==> ChannelByte(v) == 0
    ensures v >= 1.0 ==> ChannelByte(v) == MaxValue
  {
  }

  /** The values of the source's tests: 1.5, 0.5, -0.5, 0.8 and 0.6. */
  lemma ChannelByteExamples()
    ensures ChannelByte(1.5) == 255
    ensures ChannelByte(0.5) == 128
    ensures ChannelByte(-0.5) == 0
    ensures ChannelByte(0.8) == 204
    ensures ChannelByte(0.6) == 153
  {
    assert ClampChannel(0.5, 0.0, 1.0) * 255.0 + 0.5 == 128.0;
    assert ClampChannel(0.8, 0.0, 1.0) * 255.0 + 0.5 == 204.5;
    assert ClampChannel(0.6, 0.0, 1.0) * 255.0 + 0.5 == 153.5;
  }

  // ---------------------------------------------------------------------------------------
  // The channel values as text

  /** Channel 0, 1 or 2 of a colour: red, green, blue. */
  function Channel(c: Color, j: nat): real
    requires j < 3
  {
    if j == 0 then c.red else if j == 1 then c.green else c.blue
  }

  /** The three numerals `format!("{}", r)`, `g`, `b` pushed for one pixel. */
  function PixelNumerals(c: Color): seq<string>
  {
    [NatToString(ChannelByte(c.red)), NatToString(ChannelByte(c.green)), NatToString(ChannelByte(c.blue))]
  }

  /**
   `pixel_strings`: three numerals per pixel, pixel after pixel in buffer order, so value `i`
   is channel `i % 3` of pixel `i / 3`.
   */
  function ChannelNumerals(pixels: seq<Color>): (ns: seq<string>)
    ensures |ns| == 3 * |pixels|
    ensures NumeralsOf(pixels, ns)
  {
    if |pixels| == 0 then []
    else
      var rest := ChannelNumerals(pixels[1..]);
      var ns := PixelNumerals(pixels[0]) + rest;
      NumeralsShift(pixels, rest, ns);
      ns
  }

  /** Value `i` of a pixel's numerals: channel `i % 3` of pixel `i / 3`. */
  predicate NumeralsOf(pixels: seq<Color>, ns: seq<string>)
    requires |ns| == 3 * |pixels|
  {
    forall i :: 0 <= i < |ns| ==> ns[i] == NatToString(ChannelByte(Channel(pixels[i / 3], i % 3)))
  }

  /** Putting one pixel's three numerals in front of the rest's shifts every later value by one pixel. */
  lemma NumeralsShift(pixels: seq<Color>, rest: seq<string>, ns: seq<string>)
    requires |pixels| > 0 && |rest| == 3 * (|pixels| - 1) && NumeralsOf(pixels[1..], rest)
    requires ns == PixelNumerals(pixels[0]) + rest
    ensures |ns| == 3 * |pixels| && NumeralsOf(pixels, ns)
  {
    forall i | 0 <= i < |ns|
      ensures ns[i] == NatToString(ChannelByte(Channel(pixels[i / 3], i % 3)))
    {
      if i >= 3 {
        ThirdOfShifted(i);
        assert ns[i] == rest[i - 3];
        assert pixels[1..][(i - 3) / 3] == pixels[i / 3];
      }
    }
  }

  lemma ThirdOfShifted(i: nat)
    requires i >= 3
    ensures (i - 3) / 3 + 1 == i / 3 && (i - 3) % 3 == i % 3
  {
  }

  /** Every value is a non-empty numeral of at most three digits, so it contains no whitespace. */
  lemma NumeralsAreShort(pixels: seq<Color>)
    ensures forall i :: 0 <= i < |ChannelNumerals(pixels)| ==>
      1 <= |ChannelNumerals(pixels)[i]| <= 3 && NoSpaces(ChannelNumerals(pixels)[i])
  {
    var ns := ChannelNumerals(pixels);
    forall i | 0 <= i < |ns|
      ensures 1 <= |ns[i]| <= 3 && NoSpaces(ns[i])
    {
      ByteNumeralLength(ChannelByte(Channel(pixels[i / 3], i % 3)));
      DigitsHaveNoSpaces(ns[i]);
    }
  }

  // ---------------------------------------------------------------------------------------
  // `create_ppm_pixel_data`

  /** Breaking the line and then writing a short value: the value alone is on the new line. */
  lemma BreakThen(before: string, s: string, k: nat)
    requires LinesWithin(before, k) && NoSpaces(s) && |s| <= k
    ensures LinesWithin(before + "\n" + s, k) && Run(before + "\n" + s) == |s|
  {
    NewlineWithin(before, k);
    AppendWithin(before + "\n", s, k);
    RunAppend(before + "\n", s);
  }

  /** A space and a value that still fit lengthen the current line by both. */
  lemma SpaceThen(before: string, s: string, k: nat)
    requires LinesWithin(before, k) && NoSpaces(s) && Run(before) + 1 + |s| <= k
    ensures LinesWithin(before + " " + s, k) && Run(before + " " + s) == Run(before) + 1 + |s|
  {
    assert before + " " + s == before + (" " + s);
    AppendWithin(before, " " + s, k);
    RunAppend(before, " " + s);
  }

  /** Value `k` is the first of an image row of `valuesPerRow` values. */
  predicate StartsRow(k: nat, valuesPerRow: nat)
  {
    valuesPerRow > 0 && k % valuesPerRow == 0
  }

  /**
   The layout rule, for every value after the first: it is preceded by a newline exactly when
   it starts an image row or the current line has no room for a space and the value.
   */
  predicate BreaksWhereDue(ns: seq<string>, seps: seq<string>, valuesPerRow: nat)
    requires |seps| <= |ns|
  {
    forall k :: 0 < k < |seps| ==>
      (seps[k] == "\n" <==>
         StartsRow(k, valuesPerRow) || Run(Render(ns[..k], seps[..k])) + 1 + |ns[k]| > MaxLineLength)
  }

  /** Nothing before the first value and a single space or a single newline before each later one. */
  predicate SingleSeparators(seps: seq<string>)
  {
    (|seps| > 0 ==> seps[0] == "")
    && forall k :: 0 < k < |seps| ==> seps[k] == " " || seps[k] == "\n"
  }

  /** One more separator chosen by the rule keeps the whole layout following it. */
  lemma ExtendBreaks(ns: seq<string>, seps: seq<string>, sep: string, valuesPerRow: nat)
    requires |seps| < |ns| && BreaksWhereDue(ns, seps, valuesPerRow)
    requires var i := |seps|;
      i > 0 ==> (sep == "\n" <==>
                 StartsRow(i, valuesPerRow) || Run(Render(ns[..i], seps)) + 1 + |ns[i]| > MaxLineLength)
    requires SingleSeparators(seps)
    requires if |seps| == 0 then sep == "" else sep == " " || sep == "\n"
    ensures BreaksWhereDue(ns, seps + [sep], valuesPerRow)
    ensures SingleSeparators(seps + [sep])
  {
    var i, seps' := |seps|, seps + [sep];
    forall k | 0 < k < i + 1
      ensures seps'[k] == "\n" <==>
        StartsRow(k, valuesPerRow) || Run(Render(ns[..k], seps'[..k])) + 1 + |ns[k]| > MaxLineLength
    {
      assert seps'[..k] == seps[..k];
      if k < i {
        assert seps'[k] == seps[k];
      } else {
        assert seps[..k] == seps;
      }
    }
  }

  /**
   Writing a separator and a value keeps every line within the limit, and tells how long the
   last line then is.
   */
  lemma PlaceValue(before: string, sep: string, s: string)
    requires LinesWithin(before, MaxLineLength) && 1 <= |s| <= MaxLineLength && NoSpaces(s)
    requires sep == "" || sep == " " || sep == "\n"
    requires sep == "" ==> before == ""
    requires sep == " " ==> Run(before) + 1 + |s| <= MaxLineLength
    ensures LinesWithin(before + sep + s, MaxLineLength)
    ensures Run(before + sep + s) == if sep == " " then Run(before) + 1 + |s| else |s|
  {
    if sep == "" {
      assert before + sep + s == before + s;
      AppendWithin(before, s, MaxLineLength);
      RunAppend(before, s);
    } else if sep == "\n" {
      BreakThen(before, s, MaxLineLength);
    } else {
      SpaceThen(before, s, MaxLineLength);
    }
  }

  /** For `i >= 1`, `i / n` differs from `(i - 1) / n` exactly when `i` is a multiple of `n`. */
  lemma RowChange(i: nat, n: nat)
    requires i >= 1 && n >= 1
    ensures i / n != (i - 1) / n <==> i % n == 0
  {
    var q, r := (i - 1) / n, (i - 1) % n;
    assert i == q * n + (r + 1);
    if r + 1 < n {
      DivModUnique(i, n, q, r + 1);
    } else {
      assert i == (q + 1) * n + 0;
      DivModUnique(i, n, q + 1, 0);
    }
  }

  /** Division with remainder has one answer. */
  lemma DivModUnique(a: nat, n: nat, q: nat, r: nat)
    requires n >= 1 && r < n && a == q * n + r
    ensures a / n == q && a % n == r
  {
    var q', r' := a / n, a % n;
    assert q' * n + r' == q * n + r;
    if q' < q {
      assert (q' + 1) * n <= q * n by { MulLeftMonotone(q' + 1, q, n); }
    } else if q' > q {
      assert (q + 1) * n <= q' * n by { MulLeftMonotone(q + 1, q', n); }
    }
  }

  lemma MulLeftMonotone(a: nat, b: nat, n: nat)
    requires a <= b
    ensures a * n <= b * n
  {
  }

  /** Values the layout can place: non-empty, free of whitespace, each fitting on a line. */
  predicate Placeable(ns: seq<string>)
  {
    forall i :: 0 <= i < |ns| ==> 1 <= |ns[i]| <= MaxLineLength && NoSpaces(ns[i])
  }

  /** The image row of the value written last, before value `i`; row 0 before any. */
  function LastRow(i: nat, valuesPerRow: nat): int
  {
    if i == 0 || valuesPerRow == 0 then 0 else (i - 1) / valuesPerRow
  }

  /**
   One pass of the loop of `create_ppm_pixel_data`: writes value `i` after the text so far,
   whose last line is `column` long and whose last value was in image row `lastRow`. The
   separator is empty before the first value; before a later one it is a newline exactly when
   the value starts an image row or a space and the value would overflow the line, and a
   single space otherwise.
   */
  method WriteValue(data: string, column: nat, lastRow: int, i: nat, s: string, valuesPerRow: nat)
    returns (data': string, column': nat, lastRow': int, sep: string)
    requires valuesPerRow >= 1 && 1 <= |s| <= MaxLineLength && NoSpaces(s)
    requires column == Run(data) && LinesWithin(data, MaxLineLength)
    requires lastRow == LastRow(i, valuesPerRow)
    requires i > 0 ==> column >= 1
    requires i == 0 ==> data == ""
    ensures data' == data + sep + s
    ensures i == 0 ==> sep == ""
    ensures i > 0 ==> (sep == " " || sep == "\n")
    ensures i > 0 ==> (sep == "\n" <==> StartsRow(i, valuesPerRow) || column + 1 + |s| > MaxLineLength)
    ensures column' == Run(data') && column' >= 1 && LinesWithin(data', MaxLineLength)
    ensures lastRow' == LastRow(i + 1, valuesPerRow)
  {
    column', lastRow' := column, lastRow;
    sep := "";
    var row := i / valuesPerRow;
    if row != lastRow' {
      lastRow' := row;
      sep := sep + "\n";
      column' := 0;
    }
    var needed := (if column' != 0 then 1 else 0) + |s|;
    if column' + needed > MaxLineLength {
      sep := sep + "\n";
      column' := 0;
    }
    if column' != 0 {
      sep := sep + " ";
      column' := column' + 1;
    }
    data' := data + sep + s;
    column' := column' + |s|;
    if i > 0 {
      RowChange(i, valuesPerRow);
      if row != lastRow {
        assert StartsRow(i, valuesPerRow) && sep == "\n";
      } else if column + 1 + |s| > MaxLineLength {
        assert !StartsRow(i, valuesPerRow) && sep == "\n";
      } else {
        assert !StartsRow(i, valuesPerRow) && sep == " ";
      }
    }
    PlaceValue(data, sep, s);
  }

  /**
   The state of the loop after `i` values: the text so far is their layout, the current line
   is `column` long, the last value written was in image row `lastRow`, and the separators so
   far follow the rule.
   */
  predicate Laid(ns: seq<string>, valuesPerRow: nat, i: nat, data: string, seps: seq<string>, column: nat, lastRow: int)
    requires i <= |ns|
  {
    |seps| == i && data == Render(ns[..i], seps)
    && column == Run(data) && LinesWithin(data, MaxLineLength)
    && lastRow == LastRow(i, valuesPerRow)
    && (i > 0 ==> column >= 1)
    && (i == 0 ==> data == "")
    && SingleSeparators(seps) && BreaksWhereDue(ns, seps, valuesPerRow)
  }

  /** The loop starts with nothing written. */
  lemma NothingLaid(ns: seq<string>, valuesPerRow: nat)
    ensures Laid(ns, valuesPerRow, 0, "", [], 0, 0)
  {
    assert Render(ns[..0], []) == "";
  }

  /** Once every value is written, a final newline completes a text whose lines all fit. */
  lemma AllLaid(ns: seq<string>, valuesPerRow: nat, data: string, seps: seq<string>, column: nat, lastRow: int)
    requires Laid(ns, valuesPerRow, |ns|, data, seps, column, lastRow)
    ensures data == Render(ns, seps)
    ensures LinesWithin(data + "\n", MaxLineLength)
  {
    assert ns[..|ns|] == ns;
    NewlineWithin(data, MaxLineLength);
  }

  /** One pass of the loop, together with the separator it chose, keeps the loop state. */
  method Step(ns: seq<string>, valuesPerRow: nat, i: nat, data: string, column: nat, lastRow: int, ghost seps: seq<string>)
    returns (data': string, column': nat, lastRow': int, ghost seps': seq<string>)
    requires Placeable(ns) && i < |ns| && valuesPerRow >= 1
    requires Laid(ns, valuesPerRow, i, data, seps, column, lastRow)
    ensures Laid(ns, valuesPerRow, i + 1, data', seps', column', lastRow')
    ensures data' == data + seps'[i] + ns[i]
    ensures |data'| >= |data| + |ns[i]| && data'[..|data|] == data && data'[|data'| - |ns[i]|..] == ns[i]
    ensures column' >= |ns[i]|
  {
    var sep;
    data', column', lastRow', sep := WriteValue(data, column, lastRow, i, ns[i], valuesPerRow);
    RenderExtend(ns, seps, sep);
    ExtendBreaks(ns, seps, sep, valuesPerRow);
    seps' := seps + [sep];
    assert data' == data + (sep + ns[i]);
    assert data'[|data'| - |ns[i]|..] == ns[i];
    assert column' >= |ns[i]| by { RunAppend(data + sep, ns[i]); }
  }

  /**
   The loop of `create_ppm_pixel_data` over the value strings, `valuesPerRow` to an image
   row. `seps[i]` is what is written just before value `i`: nothing before the first value;
   before every later one a single newline when it begins an image row or when a space and
   the value would take the current line past 70 characters, and a single space otherwise.
   The text ends with a newline and no line is longer than 70 characters.
   */
  method LayOut(ns: seq<string>, valuesPerRow: nat) returns (data: string, ghost seps: seq<string>)
    requires Placeable(ns)
    requires |ns| > 0 ==> valuesPerRow >= 1
    ensures |seps| == |ns| && data == Render(ns, seps) + "\n"
    ensures SingleSeparators(seps) && BreaksWhereDue(ns, seps, valuesPerRow)
    ensures LinesWithin(data, MaxLineLength)
    ensures |data| > 0 && data[|data| - 1] == '\n'
  {
    data := "";
    seps := [];
    var column: nat := 0;
    var lastRow := 0;
    var i := 0;
    NothingLaid(ns, valuesPerRow);
    while i < |ns|
      invariant 0 <= i <= |ns| && Laid(ns, valuesPerRow, i, data, seps, column, lastRow)
    {
      data, column, lastRow, seps := Step(ns, valuesPerRow, i, data, column, lastRow, seps);
      i := i + 1;
    }
    AllLaid(ns, valuesPerRow, data, seps, column, lastRow);
    data := data + "\n";
  }

  /**
   `create_ppm_pixel_data`: the channel values of the canvas laid out three to a pixel and
   `3 * width` to an image row. Reading the text back as words gives the
   `3 * width * height` channel values in buffer order.
   */
  method PixelData(c: Canvas) returns (data: string, ghost seps: seq<string>)
    requires Valid(c)
    ensures var ns := ChannelNumerals(c.pixels);
      |seps| == |ns| && data == Render(ns, seps) + "\n" && BreaksWhereDue(ns, seps, 3 * c.width)
    ensures SingleSeparators(seps)
    ensures LinesWithin(data, MaxLineLength)
    ensures |data| > 0 && data[|data| - 1] == '\n'
    ensures Words(data) == ChannelNumerals(c.pixels)
    ensures |Words(data)| == 3 * c.width * c.height
  {
    var ns := ChannelNumerals(c.pixels);
    NumeralsAreShort(c.pixels);
    assert |ns| > 0 ==> 3 * c.width >= 1 by {
      if c.width == 0 {
        assert |c.pixels| == 0;
      }
    }
    data, seps := LayOut(ns, 3 * c.width);
    WordsOfRender(ns, seps);
    assert |ns| == 3 * (c.width * c.height);
    ThreeTimes(c.width, c.height);
  }

  lemma ThreeTimes(w: nat, h: nat)
    ensures 3 * w * h == 3 * (w * h)
  {
  }

  /**
   Two layouts of the same values that both follow the rule are the same layout: the rule
   leaves the encoder no choice.
   */
  lemma {:induction false} LayoutDetermined(ns: seq<string>, valuesPerRow: nat, seps1: seq<string>, seps2: seq<string>)
    requires |seps1| == |ns| && |seps2| == |ns|
    requires SingleSeparators(seps1) && BreaksWhereDue(ns, seps1, valuesPerRow)
    requires SingleSeparators(seps2) && BreaksWhereDue(ns, seps2, valuesPerRow)
    ensures seps1 == seps2
  {
    var k := 0;
    while k < |ns|
      invariant 0 <= k <= |ns| && seps1[..k] == seps2[..k]
    {
      SameNextSeparator(ns, valuesPerRow, seps1, seps2, k);
      assert seps1[..k + 1] == seps1[..k] + [seps1[k]];
      assert seps2[..k + 1] == seps2[..k] + [seps2[k]];
      k := k + 1;
    }
    assert seps1 == seps1[..k] && seps2 == seps2[..k];
  }

  /** Two rule-following layouts that agree before value `k` choose the same separator for it. */
  lemma SameNextSeparator(ns: seq<string>, valuesPerRow: nat, seps1: seq<string>, seps2: seq<string>, k: nat)
    requires |seps1| == |ns| && |seps2| == |ns| && k < |ns|
    requires SingleSeparators(seps1) && BreaksWhereDue(ns, seps1, valuesPerRow)
    requires SingleSeparators(seps2) && BreaksWhereDue(ns, seps2, valuesPerRow)
    requires seps1[..k] == seps2[..k]
    ensures seps1[k] == seps2[k]
  {
    if k > 0 {
      assert seps1[k] == "\n" <==> seps2[k] == "\n";
    }
  }

  /**
   The whole file, as the source's commented-out `to_ppm` assembles it: the header followed
   by the pixel data. A reader sees `P3`, the width, the height, 255 and then every channel
   value in buffer order.
   */
  method ToPpm(c: Canvas) returns (ppm: string)
    requires Valid(c)
    ensures |ppm| > |Header(c.width, c.height)| && ppm[..|Header(c.width, c.height)|] == Header(c.width, c.height)
    ensures Words(ppm)
      == ["P3", NatToString(c.width), NatToString(c.height), NatToString(MaxValue)] + ChannelNumerals(c.pixels)
    ensures ppm[|ppm| - 1] == '\n'
  {
    var header := Header(c.width, c.height);
    var data, seps := PixelData(c);
    ppm := header + data;
    HeaderWords(c.width, c.height);
    WordsAppend(header, data);
  }
}
