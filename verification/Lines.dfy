/** The text side of a download: its prefix and the lines `write_lines` hands to the writer. */
module Lines {
  import opened Codec

  function HexNat(n: nat): string {
    if n < 16 then [NibbleToChar(n)] else HexNat(n / 16) + [NibbleToChar(n % 16)]
  }

  function ZeroPad(s: string, width: nat): (r: string)
    ensures |r| >= width
    decreases width - |s|
  {
    if |s| < width then ZeroPad("0" + s, width) else s
  }

  /** The prefix of file number `index`: at least five upper-case hexadecimal digits. */
  function HexPrefix(index: nat): string { ZeroPad(HexNat(index), PREFIX_STR_SIZE) }

  /** Length of the text up to, not including, the first newline. */
  function LineEnd(s: string): (n: nat)
    ensures n <= |s| && (forall i :: 0 <= i < n ==> s[i] != '\n')
    ensures n < |s| ==> s[n] == '\n'
  {
    if s == "" || s[0] == '\n' then 0 else 1 + LineEnd(s[1..])
  }

  /** Drops every carriage return at the end. */
  function StripCr(s: string): (r: string)
    ensures r <= s && (r != "" ==> r[|r| - 1] != '\r') && forall i :: |r| <= i < |s| ==> s[i] == '\r'
  {
    if s != "" && s[|s| - 1] == '\r' then StripCr(s[..|s| - 1]) else s
  }

  /** The non-empty lines of a file body, each behind the file's prefix and without carriage returns at its end. */
  function FileLines(prefix: string, body: string): seq<string>
    decreases |body|
  {
    if body == "" then []
    else
      var n := LineEnd(body);
      OneLine(prefix, body[..n]) + FileLines(prefix, AfterLine(body, n))
  }

  function OneLine(prefix: string, line: string): seq<string> {
    if line == "" then [] else [StripCr(prefix + line)]
  }

  function AfterLine(s: string, n: nat): string { if n < |s| then s[n + 1..] else "" }

  lemma FirstLine(prefix: string, s: string)
    requires s != ""
    ensures FileLines(prefix, s) == OneLine(prefix, s[..LineEnd(s)]) + FileLines(prefix, AfterLine(s, LineEnd(s)))
  {
  }

  lemma LineEndIs(s: string, n: nat)
    requires n <= |s| && (forall i :: 0 <= i < n ==> s[i] != '\n') && (n < |s| ==> s[n] == '\n')
    ensures LineEnd(s) == n
  {
  }

  lemma EmptyFile(prefix: string)
    ensures FileLines(prefix, "") == []
  {
  }

  /** Any body, published or not: an end of line splits it, and a line is left out exactly if it is empty. */
  lemma LineByLine(prefix: string, a: string, b: string)
    requires forall i :: 0 <= i < |a| ==> a[i] != '\n'
    ensures FileLines(prefix, a) == if a == "" then [] else [StripCr(prefix + a)]
    ensures FileLines(prefix, a + "\n" + b) == FileLines(prefix, a) + FileLines(prefix, b)
  {
    hide FileLines, LineEnd, StripCr;
    EmptyFile(prefix);
    LineEndIs(a, |a|);
    if a != "" { FirstLine(prefix, a); }
    assert a[..|a|] == a;
    var text := a + "\n" + b;
    LineEndIs(text, |a|);
    FirstLine(prefix, text);
    assert text[..|a|] == a && text[|a| + 1..] == b;
  }
}
