/**
 Plain-text vocabulary for the PPM encoder: decimal formatting of unsigned integers (Rust's
 `format!("{}", n)`), the length of the line being written, and the whitespace-separated
 words a PPM reader sees.
 */
module Text {
  import opened Seqs
  // ---------------------------------------------------------------------------------------
  // Decimal numerals

  predicate IsDigit(ch: char)
  {
    '0' <= ch <= '9'
  }

  predicate AllDigits(s: string)
  {
    forall i :: 0 <= i < |s| ==> IsDigit(s[i])
  }

  function DigitChar(d: nat): (ch: char)
    requires d < 10
    ensures IsDigit(ch)
  {
    (48 + d) as char
  }

  function DigitValue(ch: char): (d: nat)
    requires IsDigit(ch)
    ensures d < 10
  {
    ch as int - 48
  }

  /**
   `format!("{}", n)` for an unsigned integer: at least one decimal digit, and no leading
   zero unless the number is zero itself.
   */
  function NatToString(n: nat): (s: string)
    ensures |s| >= 1 && AllDigits(s)
    ensures |s| > 1 ==> s[0] != '0'
    decreases n
  {
    if n < 10 then [DigitChar(n)] else NatToString(n / 10) + [DigitChar(n % 10)]
  }

  /** Reads a string of decimal digits back as a number. */
  function ParseNat(s: string): nat
    requires AllDigits(s)
  {
    if |s| == 0 then 0 else 10 * ParseNat(s[..|s| - 1]) + DigitValue(s[|s| - 1])
  }

  /** Formatting and reading back are inverse: the numeral denotes the number. */
  lemma {:induction false} ParseNatToString(n: nat)
    ensures ParseNat(NatToString(n)) == n
    decreases n
  {
    var s := NatToString(n);
    if n >= 10 {
      ParseNatToString(n / 10);
      assert s[..|s| - 1] == NatToString(n / 10);
    }
  }

  /** Different numbers get different numerals. */
  lemma NatToStringInjective(a: nat, b: nat)
    requires NatToString(a) == NatToString(b)
    ensures a == b
  {
    ParseNatToString(a);
    ParseNatToString(b);
  }

  /** A byte value has at most three digits. */
  lemma {:induction false} ByteNumeralLength(n: nat)
    requires n <= 255
    ensures 1 <= |NatToString(n)| <= 3
    ensures n < 10 ==> |NatToString(n)| == 1
    ensures 10 <= n < 100 ==> |NatToString(n)| == 2
    ensures 100 <= n ==> |NatToString(n)| == 3
  {
    if n >= 10 {
      ByteNumeralLength(n / 10);
    }
  }

  // ---------------------------------------------------------------------------------------
  // Lines

  /** The length of the last line of `s`: the characters after its last newline. */
  function Run(s: string): nat
  {
    if |s| == 0 || s[|s| - 1] == '\n' then 0 else 1 + Run(s[..|s| - 1])
  }

  predicate NoNewline(t: string)
  {
    forall i :: 0 <= i < |t| ==> t[i] != '\n'
  }

  /** No line of `s` is longer than `k` characters (the line endings themselves not counted). */
  predicate LinesWithin(s: string, k: nat)
  {
    forall j :: 0 <= j <= |s| ==> Run(s[..j]) <= k
  }

  /** Appending text without a newline lengthens the last line by that much. */
  lemma {:induction false} RunAppend(s: string, t: string)
    requires NoNewline(t)
    ensures Run(s + t) == Run(s) + |t|
    decreases |t|
  {
    if |t| > 0 {
      var t' := t[..|t| - 1];
      TakeIntoSecond(s, t, |t| - 1);
      RunAppend(s, t');
    } else {
      AppendEmpty(s, t);
    }
  }

  /** A newline starts an empty line. */
  lemma RunAfterNewline(s: string)
    ensures Run(s + "\n") == 0
  {
  }

  /** Text without a newline fits on the current line when the line stays within `k`. */
  lemma AppendWithin(s: string, t: string, k: nat)
    requires LinesWithin(s, k) && NoNewline(t) && Run(s) + |t| <= k
    ensures LinesWithin(s + t, k)
  {
    forall j | 0 <= j <= |s + t|
      ensures Run((s + t)[..j]) <= k
    {
      if j <= |s| {
        TakeOfAppend(s, t, j);
      } else {
        TakeIntoSecond(s, t, j - |s|);
        RunAppend(s, t[..j - |s|]);
      }
    }
  }

  /** Ending the line never makes a line too long. */
  lemma NewlineWithin(s: string, k: nat)
    requires LinesWithin(s, k)
    ensures LinesWithin(s + "\n", k)
  {
    forall j | 0 <= j <= |s + "\n"|
      ensures Run((s + "\n")[..j]) <= k
    {
      if j <= |s| {
        TakeOfAppend(s, "\n", j);
      } else {
        assert j == |s + "\n"|;
      }
    }
  }

  // ---------------------------------------------------------------------------------------
  // Words

  predicate IsSpace(ch: char)
  {
    ch == ' ' || ch == '\n'
  }

  predicate AllSpaces(s: string)
  {
    forall i :: 0 <= i < |s| ==> IsSpace(s[i])
  }

  predicate NoSpaces(s: string)
  {
    forall i :: 0 <= i < |s| ==> !IsSpace(s[i])
  }

  /** The length of the word `s` starts with (zero when it starts with a space). */
  function WordLength(s: string): (k: nat)
    ensures k <= |s|
    ensures |s| > 0 && !IsSpace(s[0]) ==> k >= 1
  {
    if |s| == 0 || IsSpace(s[0]) then 0 else 1 + WordLength(s[1..])
  }

  /** The maximal runs of non-space characters, in order: what a PPM reader tokenises. */
  function Words(s: string): seq<string>
    decreases |s|
  {
    if |s| == 0 then []
    else if IsSpace(s[0]) then Words(s[1..])
    else [s[..WordLength(s)]] + Words(s[WordLength(s)..])
  }

  /** Leading whitespace contributes no word. */
  lemma {:induction false} WordsSkipSpaces(ws: string, s: string)
    requires AllSpaces(ws)
    ensures Words(ws + s) == Words(s)
    decreases |ws|
  {
    if |ws| > 0 {
      DropOfAppend(ws, s, 1);
      WordsSkipSpaces(ws[1..], s);
    } else {
      AppendEmpty(ws, s);
    }
  }

  /** A word followed by a space or the end of the text is read as one whole word. */
  lemma {:induction false} WordLengthOf(w: string, s: string)
    requires NoSpaces(w)
    requires |s| == 0 || IsSpace(s[0])
    ensures WordLength(w + s) == |w|
    decreases |w|
  {
    if |w| > 0 {
      DropOfAppend(w, s, 1);
      WordLengthOf(w[1..], s);
    } else {
      AppendEmpty(w, s);
    }
  }

  /** Inside text that ends with a space, the first word ends inside that text too. */
  lemma {:induction false} WordLengthWithin(a: string, b: string)
    requires |a| > 0 && IsSpace(a[|a| - 1])
    ensures WordLength(a + b) == WordLength(a) < |a|
    decreases |a|
  {
    if !IsSpace(a[0]) {
      DropOfAppend(a, b, 1);
      WordLengthWithin(a[1..], b);
    }
  }

  /** Text that ends with a space (or is empty) and the text after it are read separately. */
  lemma {:induction false} WordsAppend(a: string, b: string)
    requires |a| == 0 || IsSpace(a[|a| - 1])
    ensures Words(a + b) == Words(a) + Words(b)
    decreases |a|
  {
    if |a| == 0 {
      AppendEmpty(a, b);
    } else if IsSpace(a[0]) {
      DropOfAppend(a, b, 1);
      WordsAppend(a[1..], b);
    } else {
      var k := WordLength(a);
      WordLengthWithin(a, b);
      TakeOfAppend(a, b, k);
      DropOfAppend(a, b, k);
      WordsAppend(a[k..], b);
    }
  }

  lemma WordsHead(w: string, s: string)
    requires |w| > 0 && NoSpaces(w)
    requires |s| == 0 || IsSpace(s[0])
    ensures Words(w + s) == [w] + Words(s)
  {
    WordLengthOf(w, s);
    TakeOfAppend(w, s, |w|);
    DropOfAppend(w, s, |w|);
  }

  /**
   Text laid out as `seps[0] + words[0] + seps[1] + words[1] + ...`: the interleaving of
   values and separators the encoder writes.
   */
  function Render(words: seq<string>, seps: seq<string>): string
    requires |seps| == |words|
  {
    if |words| == 0 then "" else seps[0] + words[0] + Render(words[1..], seps[1..])
  }

  /** Appending one separator and one value extends the layout at its end. */
  lemma {:induction false} RenderSnoc(words: seq<string>, seps: seq<string>, w: string, sep: string)
    requires |seps| == |words|
    ensures Render(words + [w], seps + [sep]) == Render(words, seps) + sep + w
    decreases |words|
  {
    if |words| == 0 {
      AppendEmpty(words, [w]);
      AppendEmpty(seps, [sep]);
      assert Render([w], [sep]) == sep + w + Render([], []);
    } else {
      DropOfAppend(words, [w], 1);
      DropOfAppend(seps, [sep], 1);
      var rest := Render(words[1..], seps[1..]);
      RenderSnoc(words[1..], seps[1..], w, sep);
      assert Render(words + [w], seps + [sep]) == seps[0] + words[0] + (rest + sep + w);
      assert Render(words, seps) == seps[0] + words[0] + rest;
    }
  }

  /** The layout of one more value of `words`, with its separator. */
  lemma RenderExtend(words: seq<string>, seps: seq<string>, sep: string)
    requires |seps| < |words|
    ensures var i := |seps|;
      Render(words[..i + 1], seps + [sep]) == Render(words[..i], seps) + sep + words[i]
  {
    var i := |seps|;
    TakeOneMore(words, i);
    RenderSnoc(words[..i], seps, words[i], sep);
  }

  /** Separators made of whitespace, and non-empty between consecutive values. */
  predicate Separating(seps: seq<string>)
  {
    (forall i :: 0 <= i < |seps| ==> AllSpaces(seps[i]))
    && (forall i :: 0 < i < |seps| ==> |seps[i]| > 0)
  }

  /** Peeling the first separator and value off a layout that ends in a newline. */
  lemma RenderFirst(words: seq<string>, seps: seq<string>)
    requires |seps| == |words| > 0
    ensures Render(words, seps) + "\n" == seps[0] + (words[0] + (Render(words[1..], seps[1..]) + "\n"))
  {
  }

  /** A layout whose first separator is non-empty whitespace, followed by a newline, starts with whitespace. */
  lemma LayoutStartsWithSpace(words: seq<string>, seps: seq<string>)
    requires |seps| == |words|
    requires |seps| > 0 ==> |seps[0]| > 0 && AllSpaces(seps[0])
    ensures IsSpace((Render(words, seps) + "\n")[0])
  {
    if |words| > 0 {
      RenderFirst(words, seps);
    }
  }

  /**
   Reading the layout back: when the values are non-empty and free of whitespace and the
   separators separate, the words of the text followed by a newline are exactly the values.
   */
  lemma {:induction false} WordsOfRender(words: seq<string>, seps: seq<string>)
    requires |seps| == |words| && Separating(seps)
    requires forall i :: 0 <= i < |words| ==> |words[i]| > 0 && NoSpaces(words[i])
    ensures Words(Render(words, seps) + "\n") == words
    decreases |words|
  {
    if |words| == 0 {
      assert Render(words, seps) + "\n" == "\n";
      assert Words("\n") == Words("");
    } else {
      var rest := Render(words[1..], seps[1..]) + "\n";
      assert Separating(seps[1..]);
      WordsOfRender(words[1..], seps[1..]);
      LayoutStartsWithSpace(words[1..], seps[1..]);
      RenderFirst(words, seps);
      WordsSkipSpaces(seps[0], words[0] + rest);
      WordsHead(words[0], rest);
    }
  }
}
