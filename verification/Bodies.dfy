/** The published files: what the server sends for a prefix, and the records the downloader makes of it. */
module Bodies {
  import opened Orders
  import opened Bytes
  import opened Codec
  import opened Lines

  /** One line of a published file: the rest of the hash and how often it was seen. */
  datatype Entry = Entry(suffix: string, count: nat)

  /** All files: their entries, how lines are separated, and whether the last line ends with a separator too. */
  datatype Source = Source(entries: nat -> seq<Entry>, crlf: bool, trailing: bool) {
    function Eol(): string { if crlf then "\r\n" else "\n" }

    function Body(i: nat): string { JoinLines(entries(i), Eol()) + (if trailing then Eol() else "") }
  }

  function LineOf(e: Entry): string { e.suffix + ":" + DecNat(e.count) }

  function JoinLines(es: seq<Entry>, eol: string): string {
    if es == [] then "" else if |es| == 1 then LineOf(es[0]) else LineOf(es[0]) + eol + JoinLines(es[1..], eol)
  }

  ghost predicate ValidEntry(e: Entry, suffixSize: nat) {
    |e.suffix| == suffixSize && UpperHexText(e.suffix) && IsInt32(e.count)
  }

  ghost predicate ValidFile(es: seq<Entry>, suffixSize: nat) {
    es != [] && forall k :: 0 <= k < |es| ==> ValidEntry(es[k], suffixSize)
  }

  function FullLines(prefix: string, es: seq<Entry>): seq<string> {
    if es == [] then [] else [prefix + LineOf(es[0])] + FullLines(prefix, es[1..])
  }

  // ---------- write_lines on a published file ----------

  lemma EndsWithDigit(e: Entry)
    ensures LineOf(e) != "" && IsDigit(LineOf(e)[|LineOf(e)| - 1])
  {
  }

  lemma NoLineBreaks(e: Entry, suffixSize: nat)
    requires ValidEntry(e, suffixSize)
    ensures forall i :: 0 <= i < |LineOf(e)| ==> LineOf(e)[i] != '\n' && LineOf(e)[i] != '\r'
  {
    hide DecNat;
    DecNatCanonical(e.count);
    var d := DecNat(e.count);
    forall i | 0 <= i < |LineOf(e)| ensures LineOf(e)[i] != '\n' && LineOf(e)[i] != '\r' {
      if i < |e.suffix| {
        assert IsUpperHex(e.suffix[i]);
      } else if i > |e.suffix| {
        assert LineOf(e)[i] == d[i - |e.suffix| - 1];
        assert IsDigit(d[i - |e.suffix| - 1]);
      }
    }
  }

  lemma StripOneCr(s: string)
    requires s != "" && s[|s| - 1] != '\r'
    ensures StripCr(s) == s && StripCr(s + "\r") == s
  {
  }

  /** One line is cut off and cleaned. */
  lemma FirstFileLine(prefix: string, e: Entry, suffixSize: nat, crlf: bool, rest: string)
    requires ValidEntry(e, suffixSize)
    ensures FileLines(prefix, LineOf(e)) == [prefix + LineOf(e)]
    ensures FileLines(prefix, LineOf(e) + (if crlf then "\r\n" else "\n") + rest)
         == [prefix + LineOf(e)] + FileLines(prefix, rest)
  {
    hide FileLines, LineEnd, StripCr;
    var line := LineOf(e);
    NoLineBreaks(e, suffixSize);
    EndsWithDigit(e);
    StripOneCr(prefix + line);
    hide LineOf;
    // without a separator
    LineEndIs(line, |line|);
    FirstLine(prefix, line);
    assert line[..|line|] == line;
    EmptyFile(prefix);
    // with one
    var eol := if crlf then "\r\n" else "\n";
    var text := line + eol + rest;
    var n := |line| + |eol| - 1;
    forall i | 0 <= i < n ensures text[i] != '\n' {
      assert i < |line| ==> text[i] == line[i];
    }
    LineEndIs(text, n);
    FirstLine(prefix, text);
    assert text[n + 1..] == rest;
    assert prefix + text[..n] == if crlf then prefix + line + "\r" else prefix + line;
  }

  /** Every line of a published file is written once, in order, behind the prefix; separators leave no trace. */
  lemma {:induction false} FileLinesOfBody(prefix: string, es: seq<Entry>, suffixSize: nat, crlf: bool, trailing: bool)
    requires ValidFile(es, suffixSize)
    ensures var eol := if crlf then "\r\n" else "\n";
            FileLines(prefix, JoinLines(es, eol) + (if trailing then eol else "")) == FullLines(prefix, es)
  {
    hide FileLines, LineOf;
    var eol := if crlf then "\r\n" else "\n";
    var tail := if trailing then eol else "";
    EmptyFile(prefix);
    if |es| == 1 {
      FirstFileLine(prefix, es[0], suffixSize, crlf, "");
      assert FullLines(prefix, es) == [prefix + LineOf(es[0])] + FullLines(prefix, []);
      assert JoinLines(es, eol) + tail == if trailing then LineOf(es[0]) + eol + "" else LineOf(es[0]);
    } else {
      var rest := JoinLines(es[1..], eol) + tail;
      FileLinesOfBody(prefix, es[1..], suffixSize, crlf, trailing);
      FirstFileLine(prefix, es[0], suffixSize, crlf, rest);
      assert JoinLines(es, eol) + tail == LineOf(es[0]) + eol + rest;
    }
  }

  // ---------- file prefixes ----------

  function HexFixed(n: nat, width: nat): string {
    if width == 0 then "" else HexFixed(n / 16, width - 1) + [NibbleToChar(n % 16)]
  }

  function Pow16(k: nat): nat { if k == 0 then 1 else 16 * Pow16(k - 1) }

  function FromHex(s: string): nat
    requires UpperHexText(s)
  {
    if s == "" then 0
    else
      assert IsUpperHex(s[|s| - 1]);
      FromHex(s[..|s| - 1]) * 16 + MakeNibble(s[|s| - 1])
  }

  lemma {:induction false} ZeroPadSnoc(s: string, c: char, width: nat)
    requires width > 0
    ensures ZeroPad(s + [c], width) == ZeroPad(s, width - 1) + [c]
    decreases width - |s|
  {
    if |s| + 1 < width {
      assert "0" + (s + [c]) == ("0" + s) + [c];
      ZeroPadSnoc("0" + s, c, width);
    }
  }

  lemma {:induction false} ZeroPadIsFixed(n: nat, width: nat)
    requires width > 0 && n < Pow16(width)
    ensures ZeroPad(HexNat(n), width) == HexFixed(n, width)
  {
    if n < 16 {
      ZeroPadSnoc("", NibbleToChar(n), width);
      ZeroesAreFixed(width - 1);
      assert "" + [NibbleToChar(n)] == HexNat(n);
    } else {
      ZeroPadIsFixed(n / 16, width - 1);
      ZeroPadSnoc(HexNat(n / 16), NibbleToChar(n % 16), width);
    }
  }

  lemma {:induction false} ZeroesAreFixed(width: nat)
    ensures ZeroPad("", width) == HexFixed(0, width)
  {
    if width > 0 {
      assert "0" + "" == "" + ['0'];
      ZeroPadSnoc("", '0', width);
      ZeroesAreFixed(width - 1);
      assert ZeroPad("", width) == ZeroPad("0" + "", width);
    }
  }

  lemma {:induction false} HexFixedShape(n: nat, width: nat)
    ensures |HexFixed(n, width)| == width && UpperHexText(HexFixed(n, width))
    ensures n < Pow16(width) ==> FromHex(HexFixed(n, width)) == n
  {
    if width > 0 {
      HexFixedShape(n / 16, width - 1);
      assert HexFixed(n, width)[..width - 1] == HexFixed(n / 16, width - 1);
      NibbleRoundTrip(n % 16, '0');
    }
  }

  lemma CharOrder()
    ensures TotalOrder(CharLess())
  {
  }

  lemma {:induction false} HexFixedOrder(m: nat, n: nat, width: nat)
    requires m < n < Pow16(width)
    ensures LexLess(CharLess(), HexFixed(m, width), HexFixed(n, width))
  {
    CharOrder();
    var p, q := HexFixed(m / 16, width - 1), HexFixed(n / 16, width - 1);
    HexFixedShape(m / 16, width - 1);
    HexFixedShape(n / 16, width - 1);
    if m / 16 < n / 16 {
      HexFixedOrder(m / 16, n / 16, width - 1);
      LexByPrefix(CharLess(), p, q, [NibbleToChar(m % 16)], [NibbleToChar(n % 16)]);
    } else {
      NibbleOrder(m % 16, n % 16);
      LexSamePrefix(CharLess(), p, [NibbleToChar(m % 16)], [NibbleToChar(n % 16)]);
    }
  }

  const FILES := 0x10_0000

  /** Prefixes of the 2^20 files have five digits, name their file, and are ordered like the file numbers. */
  lemma PrefixFacts(m: nat, n: nat)
    requires m < FILES && n < FILES
    ensures |HexPrefix(m)| == PREFIX_STR_SIZE && UpperHexText(HexPrefix(m)) && FromHex(HexPrefix(m)) == m
    ensures m < n ==> LexLess(CharLess(), HexPrefix(m), HexPrefix(n))
  {
    assert Pow16(5) == FILES by { assert Pow16(2) == 256; assert Pow16(4) == 65536; }
    ZeroPadIsFixed(m, 5);
    ZeroPadIsFixed(n, 5);
    HexFixedShape(m, 5);
    if m < n { HexFixedOrder(m, n, 5); }
  }
}
