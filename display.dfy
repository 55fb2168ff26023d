/**
 * What the worker tasks draw on the SSD1306 display. A frame is the list of
 * strings drawn between clearing the buffer and sending it to the panel;
 * the pixel-level driver is not part of this model.
 */
module Display {

  datatype Option<T> = None | Some(value: T)

  /** One `ssd1306_draw_string` call: the text and its top-left position. */
  datatype TextDraw = Text(s: string, x: nat, y: nat)

  /** The texts drawn between one clear and one send of the display buffer. */
  type Frame = seq<TextDraw>

  /** Size of the `char buffer[32]` the count line is formatted into. */
  const LINE_BUFFER_SIZE: nat := 32

  const COUNT_PREFIX: string := "Eventos: "

  /** Row at which the count line is drawn. */
  const COUNT_ROW: nat := 44

  /** The idle screen, "waiting for event". */
  const WaitingFrame: Frame := [Text("Aguardando ", 5, 25), Text("  evento...", 5, 34)]

  /** The screen shown after an entry event, "event received", with the new count. */
  function EntryFrame(count: nat): (f: Frame)
    ensures ShownCount(f) == Some(count)
    ensures forall i :: 0 <= i < |f| ==> f[i].x == 5
  {
    [Text("Evento ", 5, 10), Text("recebido!", 5, 19), Text(CountLine(count), 5, COUNT_ROW)]
  }

  /** The screen shown after an exit event, "exit", with the new count. */
  function ExitFrame(count: nat): (f: Frame)
    ensures ShownCount(f) == Some(count)
    ensures forall i :: 0 <= i < |f| ==> f[i].x == 5
  {
    [Text("Saida!", 5, 10), Text(CountLine(count), 5, COUNT_ROW)]
  }

  /**
   * The text `sprintf(buffer, "Eventos: %d", count)` writes: the prefix
   * followed by a numeral that reads back as `count`.
   */
  function CountLine(count: nat): (line: string)
    ensures |line| > |COUNT_PREFIX| && line[..|COUNT_PREFIX|] == COUNT_PREFIX
    ensures IsNumeral(line[|COUNT_PREFIX|..]) && DigitsValue(line[|COUNT_PREFIX|..]) == count
  {
    ReadDecimal(count);
    var line := COUNT_PREFIX + Decimal(count);
    assert line[|COUNT_PREFIX|..] == Decimal(count);
    line
  }

  predicate IsDigit(c: char)
  {
    '0' <= c <= '9'
  }

  /** A decimal numeral as `%d` prints a non-negative value: digits only, no leading zero. */
  predicate IsNumeral(s: string)
  {
    |s| > 0 && (forall i :: 0 <= i < |s| ==> IsDigit(s[i])) && (|s| > 1 ==> s[0] != '0')
  }

  function DigitChar(d: nat): (c: char)
    requires d < 10
    ensures IsDigit(c) && c as int - '0' as int == d
  {
    ('0' as int + d) as char
  }

  function DigitValue(c: char): nat
    requires IsDigit(c)
  {
    c as int - '0' as int
  }

  /** The decimal numeral of `n`, as `%d` formats it. */
  function Decimal(n: nat): (s: string)
    ensures IsNumeral(s)
    ensures n < 10 ==> |s| == 1
    ensures n >= 10 ==> |s| > 1
  {
    if n < 10 then [DigitChar(n)] else Decimal(n / 10) + [DigitChar(n % 10)]
  }

  /** The value of a string of decimal digits, read most significant digit first. */
  function DigitsValue(s: string): nat
    requires forall i :: 0 <= i < |s| ==> IsDigit(s[i])
  {
    if |s| == 0 then 0 else 10 * DigitsValue(s[..|s| - 1]) + DigitValue(s[|s| - 1])
  }

  /** Reading back a formatted numeral gives the number that was formatted. */
  lemma {:induction false} ReadDecimal(n: nat)
    ensures DigitsValue(Decimal(n)) == n
  {
    var s := Decimal(n);
    if n >= 10 {
      assert s[..|s| - 1] == Decimal(n / 10);
      ReadDecimal(n / 10);
    }
  }

  /** Formatting the value of a numeral gives the numeral back: the two are inverse on numerals. */
  lemma {:induction false} FormatNumeral(s: string)
    requires IsNumeral(s)
    ensures Decimal(DigitsValue(s)) == s
    decreases |s|
  {
    if |s| > 1 {
      var init := s[..|s| - 1];
      assert init[0] == s[0];
      assert IsNumeral(init);
      LeadingDigitBound(init);
      FormatNumeral(init);
      var q, d := DigitsValue(init), DigitValue(s[|s| - 1]);
      assert DigitsValue(s) == 10 * q + d;
      assert (10 * q + d) / 10 == q && (10 * q + d) % 10 == d;
      assert DigitChar(d) == s[|s| - 1];
      assert s == init + [s[|s| - 1]];
    } else {
      assert DigitChar(DigitValue(s[0])) == s[0];
    }
  }

  /** A numeral of two or more digits has a value of at least 10. */
  lemma {:induction false} LeadingDigitBound(s: string)
    requires IsNumeral(s)
    ensures |s| > 1 ==> DigitsValue(s) >= 10
    ensures s[0] != '0' ==> DigitsValue(s) >= 1
    decreases |s|
  {
    if |s| > 1 {
      var init := s[..|s| - 1];
      assert init[0] == s[0];
      LeadingDigitBound(init);
    }
  }

  /** A numeral for a value below 10^k has at most k digits. */
  lemma {:induction false} DecimalLength(n: nat, k: nat)
    requires 0 < k && n < Pow10(k)
    ensures |Decimal(n)| <= k
    decreases k
  {
    if n >= 10 {
      assert k > 1;
      assert n / 10 < Pow10(k - 1);
      DecimalLength(n / 10, k - 1);
    }
  }

  function Pow10(k: nat): (p: nat)
    ensures p >= 1
  {
    if k == 0 then 1 else 10 * Pow10(k - 1)
  }

  /**
   * The count line of any `uint16_t` count, with its terminating NUL, fits
   * the 32-byte buffer `sprintf` writes into.
   */
  lemma CountLineFitsBuffer(count: nat)
    requires count < 0x1_0000
    ensures |CountLine(count)| + 1 <= LINE_BUFFER_SIZE
  {
    DecimalLength(count, 5);
  }

  /** The count a frame displays: the numeral after the prefix of its last line, if it has one. */
  function ShownCount(f: Frame): Option<nat>
  {
    if |f| == 0 then None
    else
      var line := f[|f| - 1].s;
      if |line| > |COUNT_PREFIX| && line[..|COUNT_PREFIX|] == COUNT_PREFIX && IsNumeral(line[|COUNT_PREFIX|..])
      then Some(DigitsValue(line[|COUNT_PREFIX|..]))
      else None
  }

  /** The idle frame displays no count. */
  lemma WaitingFrameShowsNoCount()
    ensures ShownCount(WaitingFrame) == None
  {
    assert WaitingFrame[1].s[..|COUNT_PREFIX|] != COUNT_PREFIX by {
      assert WaitingFrame[1].s[0] != COUNT_PREFIX[0];
    }
  }
}
